/** The parallel folder walk (src/readpst.c): a tree of processes that share one counting
    semaphore. Every step below is one system call or one round of a loop, and processes
    interleave freely between steps. */
module ForkProtocol {
  import opened Common

  /** An entry of a folder. A folder to be entered, or a message to be written to a file of its
      own, is shared out: a process may be forked for it. Anything else is written on the spot. */
  datatype Job = Shared(id: nat, items: seq<Job>) | Local(id: nat)

  function Items(job: Job): seq<Job> { if job.Shared? then job.items else [] }

  datatype Pc =
    | Run(agenda: seq<Job>)                        // in the loop of process()
    | Poll(i: nat, job: Job, agenda: seq<Job>)     // grim_reaper(0) is at child i
    | Acquire(job: Job, agenda: seq<Job>)          // saw a free permit, about to call sem_wait
    | Fork(job: Job, agenda: seq<Job>)             // holds the permit for a child
    | Reap                                         // in grim_reaper(1)
    | Exited

  /** A worker was forked for one job and has a permit to give back; the first process is none. */
  datatype Proc = Proc(pc: Pc, children: seq<nat>, parent: nat, worker: bool)

  /** `lost` counts the permits kept by failed forks; `done` logs which process handled what. */
  datatype State = State(sem: nat, procs: seq<Proc>, lost: nat, done: seq<(nat, nat)>)

  function Init(max: nat, agenda: seq<Job>): State {
    State(max, [Proc(Run(agenda), [], 0, false)], 0, [])
  }

  function RemoveAt<T>(s: seq<T>, i: nat): seq<T>
    requires i < |s|
  {
    s[..i] + s[i + 1..]
  }

  function Set(s: State, p: nat, proc: Proc): State
    requires p < |s.procs|
  {
    s.(procs := s.procs[p := proc])
  }

  predicate HasExited(s: State, q: nat) { q < |s.procs| && s.procs[q].pc.Exited? }

  /** The process handles the job itself and goes on with the job's items. */
  function HandleInline(s: State, p: nat, job: Job, agenda: seq<Job>): State
    requires p < |s.procs|
  {
    Set(s, p, s.procs[p].(pc := Run(Items(job) + agenda))).(done := s.done + [(p, job.id)])
  }

  /** fork: the child gets the job's items, the parent goes on with its agenda. */
  function ForkChild(s: State, p: nat, job: Job, agenda: seq<Job>): State
    requires p < |s.procs|
  {
    var me, child := s.procs[p], |s.procs|;
    s.(procs := s.procs[p := me.(pc := Run(agenda), children := me.children + [child])]
                + [Proc(Run(Items(job)), [], p, true)],
       done := s.done + [(child, job.id)])
  }

  /** The state after process p moves, or none if it is blocked or gone. */
  function Step(max: nat, s: State, p: nat): Option<State>
    requires p < |s.procs|
  {
    var me := s.procs[p];
    match me.pc
    case Run(agenda) =>
      if agenda == [] then
        // a worker posts its permit before it waits for its own children
        Some(Set(s, p, me.(pc := Reap)).(sem := if me.worker then s.sem + 1 else s.sem))
      else if agenda[0].Shared? then
        Some(Set(s, p, me.(pc := Poll(0, agenda[0], agenda[1..]))))
      else
        Some(HandleInline(s, p, agenda[0], agenda[1..]))
    case Poll(i, job, agenda) =>
      if i < |me.children| then
        // waitpid with WNOHANG
        if HasExited(s, me.children[i]) then
          Some(Set(s, p, me.(children := RemoveAt(me.children, i))))
        else
          Some(Set(s, p, me.(pc := Poll(i + 1, job, agenda))))
      else if s.sem > 0 && |me.children| < max then
        Some(Set(s, p, me.(pc := Acquire(job, agenda))))
      else
        // no permit in sight: pretend to be the child
        Some(HandleInline(s, p, job, agenda))
    case Acquire(job, agenda) =>
      if s.sem == 0 then None
      else Some(Set(s, p, me.(pc := Fork(job, agenda))).(sem := s.sem - 1))
    case Fork(job, agenda) =>
      Some(ForkChild(s, p, job, agenda))
    case Reap =>
      if me.children == [] then Some(Set(s, p, me.(pc := Exited)))
      else if HasExited(s, me.children[0]) then Some(Set(s, p, me.(children := RemoveAt(me.children, 0))))
      else None
    case Exited => None
  }

  /** A failed fork: the caller goes on as if it were the child, and nobody posts the permit. */
  function ForkFails(s: State, p: nat): Option<State>
    requires p < |s.procs|
  {
    var pc := s.procs[p].pc;
    if pc.Fork? then Some(HandleInline(s, p, pc.job, pc.agenda).(lost := s.lost + 1)) else None
  }

  /** One move of a run: which process moves, and whether its fork fails. */
  datatype Move = Move(p: nat, fails: bool)

  function Next(max: nat, s: State, m: Move): Option<State> {
    if m.p >= |s.procs| then None
    else if m.fails then ForkFails(s, m.p)
    else Step(max, s, m.p)
  }

  /** The state at the end of a run, if every move of it is possible. */
  function After(max: nat, s: State, run: seq<Move>): Option<State>
    decreases |run|
  {
    if run == [] then Some(s)
    else
      match Next(max, s, run[0])
      case None => None
      case Some(s') => After(max, s', run[1..])
  }

  predicate NoFailures(run: seq<Move>) { forall i :: 0 <= i < |run| ==> !run[i].fails }

  predicate AllExited(s: State) { forall p :: 0 <= p < |s.procs| ==> s.procs[p].pc.Exited? }

  predicate Stuck(max: nat, s: State) { forall p :: 0 <= p < |s.procs| ==> Step(max, s, p).None? }

  // ---------- sums over processes ----------

  function Sum(f: Proc -> int, procs: seq<Proc>): int {
    if procs == [] then 0 else Sum(f, procs[..|procs| - 1]) + f(procs[|procs| - 1])
  }

  lemma {:induction false} SumUpdate(f: Proc -> int, procs: seq<Proc>, p: nat, proc: Proc)
    requires p < |procs|
    ensures Sum(f, procs[p := proc]) == Sum(f, procs) - f(procs[p]) + f(proc)
  {
    var n := |procs| - 1;
    if p == n {
      assert procs[p := proc][..n] == procs[..n];
    } else {
      SumUpdate(f, procs[..n], p, proc);
      assert procs[p := proc][..n] == procs[..n][p := proc];
    }
  }

  lemma {:induction false} SumAppend(f: Proc -> int, procs: seq<Proc>, proc: Proc)
    ensures Sum(f, procs + [proc]) == Sum(f, procs) + f(proc)
  {
    assert (procs + [proc])[..|procs|] == procs;
  }

  /** A move changes the process that makes it, and may add one more at the end. */
  ghost predicate Moved(procs: seq<Proc>, p: nat, procs': seq<Proc>) {
    p < |procs| <= |procs'| <= |procs| + 1 && procs'[..|procs|] == procs[p := procs'[p]]
  }

  lemma {:induction false} MoveShape(max: nat, s: State, m: Move, s': State)
    requires Next(max, s, m) == Some(s')
    ensures Moved(s.procs, m.p, s'.procs)
  {
    assert s.procs[m.p := s'.procs[m.p]] == s'.procs[..|s.procs|];
  }

  function Newcomer(f: Proc -> int, procs: seq<Proc>, procs': seq<Proc>): int {
    if |procs'| > |procs| then f(procs'[|procs|]) else 0
  }

  /** How a sum changes when process p moves. */
  lemma {:induction false} SumMove(f: Proc -> int, procs: seq<Proc>, p: nat, procs': seq<Proc>)
    requires Moved(procs, p, procs')
    ensures Sum(f, procs') == Sum(f, procs) - f(procs[p]) + f(procs'[p]) + Newcomer(f, procs, procs')
  {
    SumUpdate(f, procs, p, procs'[p]);
    if |procs'| > |procs| {
      SumAppend(f, procs[p := procs'[p]], procs'[|procs|]);
      assert procs' == procs[p := procs'[p]] + [procs'[|procs|]];
    } else {
      assert procs' == procs[p := procs'[p]];
    }
  }

  // ---------- conservation of permits ----------

  predicate Working(proc: Proc) { !proc.pc.Reap? && !proc.pc.Exited? }

  /** Permits in the hands of a process: its own until it posts, and one for the child it forks. */
  function Permits(proc: Proc): int {
    (if proc.worker && Working(proc) then 1 else 0) + (if proc.pc.Fork? then 1 else 0)
  }

  predicate Conserved(max: nat, s: State) {
    s.sem + Sum(Permits, s.procs) + s.lost == max
  }

  lemma {:induction false} ConservedMove(max: nat, s: State, m: Move, s': State)
    requires Conserved(max, s) && Next(max, s, m) == Some(s')
    ensures Conserved(max, s')
  {
    MoveShape(max, s, m, s');
    SumMove(Permits, s.procs, m.p, s'.procs);
    PermitsMove(max, s, m, s');
  }

  lemma {:induction false} PermitsMove(max: nat, s: State, m: Move, s': State)
    requires Next(max, s, m) == Some(s')
    ensures m.p < |s.procs| <= |s'.procs|
    ensures s'.sem + Permits(s'.procs[m.p]) + Newcomer(Permits, s.procs, s'.procs) + s'.lost
         == s.sem + Permits(s.procs[m.p]) + s.lost
  {
  }

  // ---------- every item is handled once ----------

  /** How often id x occurs in a list of jobs, at any depth. */
  function Count(x: nat, jobs: seq<Job>): nat {
    if jobs == [] then 0
    else CountIn(x, jobs[0]) + Count(x, jobs[1..])
  }

  function CountIn(x: nat, job: Job): nat {
    (if job.id == x then 1 else 0) + (if job.Shared? then Count(x, job.items) else 0)
  }

  lemma {:induction false} CountAppend(x: nat, a: seq<Job>, b: seq<Job>)
    ensures Count(x, a + b) == Count(x, a) + Count(x, b)
  {
    if a == [] {
      assert a + b == b;
    } else {
      CountAppend(x, a[1..], b);
      assert (a + b)[1..] == a[1..] + b;
    }
  }

  function Handled(x: nat, done: seq<(nat, nat)>): nat {
    if done == [] then 0
    else Handled(x, done[..|done| - 1]) + if done[|done| - 1].1 == x then 1 else 0
  }

  /** Occurrences of x among what a process still has to do. */
  function PendingIn(x: nat, pc: Pc): nat {
    match pc
    case Run(agenda) => Count(x, agenda)
    case Poll(_, job, agenda) => CountIn(x, job) + Count(x, agenda)
    case Acquire(job, agenda) => CountIn(x, job) + Count(x, agenda)
    case Fork(job, agenda) => CountIn(x, job) + Count(x, agenda)
    case Reap => 0
    case Exited => 0
  }

  function Pending(x: nat): Proc -> int { (proc: Proc) => PendingIn(x, proc.pc) }

  function Occurrences(x: nat, s: State): int { Sum(Pending(x), s.procs) + Handled(x, s.done) }

  lemma {:induction false} OccurrencesMove(x: nat, max: nat, s: State, m: Move, s': State)
    requires Next(max, s, m) == Some(s')
    ensures Occurrences(x, s') == Occurrences(x, s)
  {
    MoveShape(max, s, m, s');
    SumMove(Pending(x), s.procs, m.p, s'.procs);
    PendingMove(x, max, s, m, s');
  }

  /** What the process that moves has to do and what has been handled stay the same together. */
  ghost predicate SamePending(x: nat, s: State, p: nat, s': State) {
    && p < |s.procs| <= |s'.procs|
    && PendingIn(x, s'.procs[p].pc) + Newcomer(Pending(x), s.procs, s'.procs) + Handled(x, s'.done)
       == PendingIn(x, s.procs[p].pc) + Handled(x, s.done)
  }

  lemma {:induction false} PendingMove(x: nat, max: nat, s: State, m: Move, s': State)
    requires Next(max, s, m) == Some(s')
    ensures SamePending(x, s, m.p, s')
  {
    var pc := s.procs[m.p].pc;
    if pc.Run? {
      PendingRun(x, max, s, m, s');
    } else if pc.Poll? {
      PendingPoll(x, max, s, m, s');
    } else if pc.Fork? {
      PendingFork(x, max, s, m, s');
    }
  }

  lemma {:induction false} PendingPoll(x: nat, max: nat, s: State, m: Move, s': State)
    requires Next(max, s, m) == Some(s') && s.procs[m.p].pc.Poll?
    ensures SamePending(x, s, m.p, s')
  {
    var pc := s.procs[m.p].pc;
    if s'.done != s.done { HandledOnce(x, s.done, (m.p, pc.job.id), pc.job, pc.agenda); }
  }

  lemma {:induction false} PendingRun(x: nat, max: nat, s: State, m: Move, s': State)
    requires Next(max, s, m) == Some(s') && s.procs[m.p].pc.Run?
    ensures SamePending(x, s, m.p, s')
  {
    var agenda := s.procs[m.p].pc.agenda;
    if agenda != [] { HandledOnce(x, s.done, (m.p, agenda[0].id), agenda[0], agenda[1..]); }
  }

  lemma {:induction false} PendingFork(x: nat, max: nat, s: State, m: Move, s': State)
    requires Next(max, s, m) == Some(s') && s.procs[m.p].pc.Fork?
    ensures SamePending(x, s, m.p, s')
  {
    var pc := s.procs[m.p].pc;
    HandledOnce(x, s.done, (if m.fails then m.p else |s.procs|, pc.job.id), pc.job, pc.agenda);
  }

  /** Handling a job logs it and leaves its items and the rest of the agenda. */
  lemma {:induction false} HandledOnce(x: nat, done: seq<(nat, nat)>, entry: (nat, nat), job: Job, agenda: seq<Job>)
    requires entry.1 == job.id
    ensures Count(x, Items(job) + agenda) == Count(x, Items(job)) + Count(x, agenda)
    ensures Handled(x, done + [entry]) + Count(x, Items(job)) == Handled(x, done) + CountIn(x, job)
  {
    CountAppend(x, Items(job), agenda);
    assert (done + [entry])[..|done|] == done;
  }

  // ---------- the shape of the process tree ----------

  predicate Distinct(list: seq<nat>, above: nat, below: nat) {
    && (forall i :: 0 <= i < |list| ==> above < list[i] < below)
    && (forall i, j :: 0 <= i < j < |list| ==> list[i] != list[j])
  }

  /** A child is younger than its parent, is listed once, and is listed until it is reaped. */
  predicate ProcOk(max: nat, s: State, p: nat)
    requires p < |s.procs|
  {
    var me := s.procs[p];
    && me.worker == (p > 0)
    && |me.children| <= max
    && Distinct(me.children, p, |s.procs|)
    && (p > 0 ==> me.parent < p && (!me.pc.Exited? ==> p in s.procs[me.parent].children))
    && match me.pc
       case Poll(i, _, _) => i <= |me.children|
       case Acquire(_, _) => |me.children| < max
       case Fork(_, _) => |me.children| < max
       case Exited => me.children == []
       case _ => true
  }

  predicate TreeOk(max: nat, s: State) {
    && s.procs != []
    && forall p :: 0 <= p < |s.procs| ==> ProcOk(max, s, p)
  }

  lemma {:induction false} RemoveKeepsOthers(s: seq<nat>, i: nat, x: nat)
    requires i < |s| && x in s && x != s[i]
    ensures x in RemoveAt(s, i)
  {
    var j :| 0 <= j < |s| && s[j] == x;
    assert RemoveAt(s, i)[if j < i then j else j - 1] == x;
  }

  /** A move takes no live process off the mover's list. */
  lemma {:induction false} ListKeepsLive(max: nat, s: State, m: Move, s': State, q: nat)
    requires TreeOk(max, s) && Next(max, s, m) == Some(s')
    requires q in s.procs[m.p].children && !HasExited(s, q)
    ensures q in s'.procs[m.p].children
  {
    assert ProcOk(max, s, m.p);
    var list, list' := s.procs[m.p].children, s'.procs[m.p].children;
    if |list'| < |list| {
      var i := if s.procs[m.p].pc.Poll? then s.procs[m.p].pc.i else 0;
      assert HasExited(s, list[i]);
      RemoveKeepsOthers(list, i, q);
    }
  }

  lemma {:induction false} Unmoved(max: nat, s: State, m: Move, s': State, q: nat)
    requires Next(max, s, m) == Some(s') && q < |s.procs|
    ensures m.p < |s.procs| <= |s'.procs| && s'.procs[q].parent == s.procs[q].parent
    ensures q != m.p ==> s'.procs[q] == s.procs[q]
    ensures s.procs[q].pc.Exited? ==> s'.procs[q].pc.Exited?
  {
  }

  /** A live process stays on its parent's list. */
  lemma {:induction false} ListedMove(max: nat, s: State, m: Move, s': State, q: nat)
    requires TreeOk(max, s) && Next(max, s, m) == Some(s') && 0 < q < |s.procs|
    requires !s'.procs[q].pc.Exited?
    ensures s'.procs[q].parent == s.procs[q].parent < q
    ensures q in s'.procs[s'.procs[q].parent].children
  {
    Unmoved(max, s, m, s', q);
    assert ProcOk(max, s, q);
    if m.p == s.procs[q].parent {
      ListKeepsLive(max, s, m, s', q);
    } else {
      Unmoved(max, s, m, s', s.procs[q].parent);
    }
  }

  lemma {:induction false} MoverOk(max: nat, s: State, m: Move, s': State)
    requires TreeOk(max, s) && Next(max, s, m) == Some(s')
    ensures ProcOk(max, s', m.p)
  {
    var p := m.p;
    assert ProcOk(max, s, p);
    MoverList(max, s, m, s');
    if p > 0 && !s'.procs[p].pc.Exited? {
      ListedMove(max, s, m, s', p);
    }
  }

  lemma {:induction false} RemoveKeepsDistinct(list: seq<nat>, i: nat, above: nat, below: nat)
    requires i < |list| && Distinct(list, above, below)
    ensures Distinct(RemoveAt(list, i), above, below)
  {
  }

  lemma {:induction false} AppendKeepsDistinct(list: seq<nat>, above: nat, below: nat)
    requires Distinct(list, above, below) && above < below
    ensures Distinct(list + [below], above, below + 1)
  {
  }

  lemma {:induction false} MoverList(max: nat, s: State, m: Move, s': State)
    requires TreeOk(max, s) && Next(max, s, m) == Some(s')
    ensures Distinct(s'.procs[m.p].children, m.p, |s'.procs|) && |s'.procs[m.p].children| <= max
  {
    assert ProcOk(max, s, m.p);
    var pc, list := s.procs[m.p].pc, s.procs[m.p].children;
    if pc.Poll? && pc.i < |list| {
      RemoveKeepsDistinct(list, pc.i, m.p, |s.procs|);
    } else if pc.Reap? {
      if list != [] { RemoveKeepsDistinct(list, 0, m.p, |s.procs|); }
    } else if pc.Fork? {
      AppendKeepsDistinct(list, m.p, |s.procs|);
    }
  }

  lemma {:induction false} OtherOk(max: nat, s: State, m: Move, s': State, q: nat)
    requires TreeOk(max, s) && Next(max, s, m) == Some(s') && q < |s.procs| && q != m.p
    ensures ProcOk(max, s', q)
  {
    assert ProcOk(max, s, q);
    assert s'.procs[q] == s.procs[q];
    if q > 0 && !s.procs[q].pc.Exited? {
      ListedMove(max, s, m, s', q);
    }
  }

  lemma {:induction false} NewcomerOk(max: nat, s: State, m: Move, s': State)
    requires TreeOk(max, s) && Next(max, s, m) == Some(s') && |s'.procs| > |s.procs|
    ensures |s'.procs| == |s.procs| + 1 && ProcOk(max, s', |s.procs|)
  {
    var list := s'.procs[m.p].children;
    assert list[|list| - 1] == |s.procs|;
  }

  lemma {:induction false} TreeMove(max: nat, s: State, m: Move, s': State)
    requires TreeOk(max, s) && Next(max, s, m) == Some(s')
    ensures TreeOk(max, s')
  {
    forall q | 0 <= q < |s'.procs|
      ensures ProcOk(max, s', q)
    {
      if q == m.p {
        MoverOk(max, s, m, s');
      } else if q < |s.procs| {
        OtherOk(max, s, m, s', q);
      } else {
        NewcomerOk(max, s, m, s');
      }
    }
  }

  // ---------- progress ----------

  /** Between its creation and its post, or with a permit in hand for a child; such a process
      is never blocked unless it waits in sem_wait. */
  predicate Active(proc: Proc) {
    proc.pc.Fork? || (proc.worker && (proc.pc.Run? || proc.pc.Poll?))
  }

  /** When someone waits for a permit and there is none, some permit is held by a process that
      is not itself waiting for one. The availability check and the acquisition are separate
      steps, so this is what rules out a deadlock. */
  predicate NoStall(s: State) {
    (exists p :: 0 <= p < |s.procs| && s.procs[p].pc.Acquire?) && s.sem == 0 ==>
      exists w :: 0 <= w < |s.procs| && Active(s.procs[w])
  }

  lemma {:induction false} NoStallMove(max: nat, s: State, p: nat, s': State)
    requires p < |s.procs| && TreeOk(max, s) && NoStall(s) && Step(max, s, p) == Some(s')
    ensures NoStall(s')
  {
    assert ProcOk(max, s, p);
    if s'.sem == 0 && exists q :: 0 <= q < |s'.procs| && s'.procs[q].pc.Acquire? {
      var q :| 0 <= q < |s'.procs| && s'.procs[q].pc.Acquire?;
      if s.procs[p].pc.Acquire? {
        assert Active(s'.procs[p]);
      } else if s.procs[p].pc.Fork? {
        assert Active(s'.procs[|s.procs|]);
      } else {
        assert q < |s.procs| && s.procs[q].pc.Acquire?;
        var w :| 0 <= w < |s.procs| && Active(s.procs[w]);
        assert Active(s'.procs[w]);
      }
    }
  }

  predicate NobodyWaits(s: State) {
    s.sem > 0 || forall p :: 0 <= p < |s.procs| ==> !s.procs[p].pc.Acquire?
  }

  lemma {:induction false} SumAtLeast(procs: seq<Proc>, p: nat)
    requires p < |procs|
    ensures Sum(Permits, procs) >= Permits(procs[p])
    ensures forall q :: 0 <= q < p ==> Sum(Permits, procs) >= Permits(procs[p]) + Permits(procs[q])
  {
    var n := |procs| - 1;
    PermitsNonNegative(procs[..n]);
    if p < n {
      SumAtLeast(procs[..n], p);
    } else {
      forall q | 0 <= q < p ensures Sum(Permits, procs) >= Permits(procs[p]) + Permits(procs[q]) {
        SumAtLeast(procs[..n], q);
      }
    }
  }

  lemma {:induction false} PermitsNonNegative(procs: seq<Proc>)
    ensures Sum(Permits, procs) >= 0
  {
    if procs != [] {
      PermitsNonNegative(procs[..|procs| - 1]);
    }
  }

  /** With a single permit nobody ever waits for it, failed forks or not: only the first
      process can see the permit free, because every other working process holds one. */
  lemma {:induction false} NobodyWaitsMove(max: nat, s: State, m: Move, s': State)
    requires max <= 1 && TreeOk(max, s) && Conserved(max, s) && NobodyWaits(s) && Next(max, s, m) == Some(s')
    ensures NobodyWaits(s')
  {
    if q :| s'.sem == 0 && 0 <= q < |s'.procs| && s'.procs[q].pc.Acquire? {
      var p := m.p;
      assert ProcOk(max, s, p);
      assert s.procs[p].pc.Acquire? && q != p && q < |s.procs|;
      assert ProcOk(max, s, q);
      SumAtLeast(s.procs, if p < q then q else p);
    }
  }

  predicate Stopped(s: State) { forall p :: 0 <= p < |s.procs| ==> s.procs[p].pc.Reap? || s.procs[p].pc.Exited? }

  /** Among processes that only wait for their children, the youngest one left can go on. */
  lemma {:induction false} YoungestReaps(max: nat, s: State, p: nat) returns (q: nat)
    requires TreeOk(max, s) && Stopped(s)
    requires p < |s.procs| && !s.procs[p].pc.Exited?
    ensures q < |s.procs| && Step(max, s, q).Some?
    decreases |s.procs| - p
  {
    assert ProcOk(max, s, p);
    var list := s.procs[p].children;
    if list == [] || HasExited(s, list[0]) {
      q := p;
    } else {
      q := YoungestReaps(max, s, list[0]);
    }
  }

  /** No deadlock: unless all processes have exited, one of them can move. */
  lemma {:induction false} Progress(max: nat, s: State)
    requires TreeOk(max, s) && NoStall(s)
    ensures AllExited(s) || !Stuck(max, s)
  {
    if p :| 0 <= p < |s.procs| && (Active(s.procs[p]) || s.procs[p].pc.Run? || s.procs[p].pc.Poll?) {
      assert Step(max, s, p).Some?;
    } else if p :| 0 <= p < |s.procs| && s.procs[p].pc.Acquire? {
      assert s.sem > 0;
      assert Step(max, s, p).Some?;
    } else if p :| 0 <= p < |s.procs| && !s.procs[p].pc.Exited? {
      var q := YoungestReaps(max, s, p);
    }
  }

  // ---------- termination ----------

  function Work(max: nat, jobs: seq<Job>): nat {
    if jobs == [] then 0 else WorkIn(max, jobs[0]) + Work(max, jobs[1..])
  }

  function WorkIn(max: nat, job: Job): nat {
    max + 7 + if job.Shared? then Work(max, job.items) else 0
  }

  lemma {:induction false} WorkAppend(max: nat, a: seq<Job>, b: seq<Job>)
    ensures Work(max, a + b) == Work(max, a) + Work(max, b)
  {
    if a == [] {
      assert a + b == b;
    } else {
      WorkAppend(max, a[1..], b);
      assert (a + b)[1..] == a[1..] + b;
    }
  }

  /** An upper bound on the moves left to a process and to those it will fork. */
  function EffortIn(max: nat, proc: Proc): int {
    var n := |proc.children|;
    match proc.pc
    case Run(agenda) => Work(max, agenda) + n + 2
    case Poll(i, job, agenda) => WorkIn(max, job) + Work(max, agenda) + n + 1 - i
    case Acquire(job, agenda) => WorkIn(max, job) + Work(max, agenda) + n - max
    case Fork(job, agenda) => WorkIn(max, job) + Work(max, agenda) + n - max - 1
    case Reap => n + 1
    case Exited => 0
  }

  function Effort(max: nat): Proc -> int { (proc: Proc) => EffortIn(max, proc) }

  function Fuel(max: nat, s: State): int { Sum(Effort(max), s.procs) }

  lemma {:induction false} FuelMove(max: nat, s: State, m: Move, s': State)
    requires TreeOk(max, s) && Next(max, s, m) == Some(s')
    ensures Fuel(max, s') < Fuel(max, s)
  {
    assert ProcOk(max, s, m.p);
    MoveShape(max, s, m, s');
    SumMove(Effort(max), s.procs, m.p, s'.procs);
    EffortMove(max, s, m, s');
  }

  /** A move leaves less to do to the process that makes it and to its new child. */
  ghost predicate LessEffort(max: nat, s: State, p: nat, s': State) {
    && p < |s.procs| <= |s'.procs|
    && EffortIn(max, s'.procs[p]) + Newcomer(Effort(max), s.procs, s'.procs) < EffortIn(max, s.procs[p])
  }

  lemma {:induction false} EffortMove(max: nat, s: State, m: Move, s': State)
    requires Next(max, s, m) == Some(s') && ProcOk(max, s, m.p)
    ensures LessEffort(max, s, m.p, s')
  {
    var pc := s.procs[m.p].pc;
    if pc.Run? {
      EffortRun(max, s, m, s');
    } else if pc.Poll? {
      EffortPoll(max, s, m, s');
    } else if pc.Fork? {
      EffortFork(max, s, m, s');
    }
  }

  lemma {:induction false} EffortRun(max: nat, s: State, m: Move, s': State)
    requires Next(max, s, m) == Some(s') && s.procs[m.p].pc.Run?
    ensures LessEffort(max, s, m.p, s')
  {
    var agenda := s.procs[m.p].pc.agenda;
    if agenda != [] { WorkAround(max, agenda[0], agenda[1..]); }
  }

  lemma {:induction false} EffortPoll(max: nat, s: State, m: Move, s': State)
    requires Next(max, s, m) == Some(s') && ProcOk(max, s, m.p) && s.procs[m.p].pc.Poll?
    ensures LessEffort(max, s, m.p, s')
  {
    WorkAround(max, s.procs[m.p].pc.job, s.procs[m.p].pc.agenda);
  }

  lemma {:induction false} EffortFork(max: nat, s: State, m: Move, s': State)
    requires Next(max, s, m) == Some(s') && s.procs[m.p].pc.Fork?
    ensures LessEffort(max, s, m.p, s')
  {
    WorkAround(max, s.procs[m.p].pc.job, s.procs[m.p].pc.agenda);
  }

  /** Doing a job costs more than doing its items. */
  lemma {:induction false} WorkAround(max: nat, job: Job, agenda: seq<Job>)
    ensures WorkIn(max, job) == max + 7 + Work(max, Items(job))
    ensures Work(max, Items(job) + agenda) == Work(max, Items(job)) + Work(max, agenda)
  {
    WorkAppend(max, Items(job), agenda);
  }

  lemma {:induction false} FuelNonNegative(max: nat, s: State, n: nat)
    requires TreeOk(max, s) && n <= |s.procs|
    ensures Sum(Effort(max), s.procs[..n]) >= 0
  {
    if n > 0 {
      FuelNonNegative(max, s, n - 1);
      assert ProcOk(max, s, n - 1);
      assert s.procs[..n][..n - 1] == s.procs[..n - 1];
    }
  }

  // ---------- whole runs ----------

  /** What holds in every reachable state, with or without failed forks. */
  ghost predicate Reachable(max: nat, agenda: seq<Job>, s: State) {
    && TreeOk(max, s)
    && Conserved(max, s)
    && forall x :: Occurrences(x, s) == Count(x, agenda)
  }

  lemma {:induction false} Initially(max: nat, agenda: seq<Job>)
    ensures Reachable(max, agenda, Init(max, agenda)) && NoStall(Init(max, agenda))
  {
    var s := Init(max, agenda);
    assert ProcOk(max, s, 0);
    assert s.procs[..0] == [];
    forall x ensures Occurrences(x, s) == Count(x, agenda) {
      assert Sum(Pending(x), s.procs) == Pending(x)(s.procs[0]);
    }
  }

  lemma {:induction false} EveryRun(max: nat, agenda: seq<Job>, s: State, run: seq<Move>)
    requires Reachable(max, agenda, s) && After(max, s, run).Some?
    ensures var s' := After(max, s, run).value;
      && Reachable(max, agenda, s')
      && |run| + Fuel(max, s') <= Fuel(max, s)
      && (NoStall(s) && NoFailures(run) ==> NoStall(s') && s'.lost == s.lost)
      && (max <= 1 && NobodyWaits(s) ==> NobodyWaits(s'))
    decreases |run|
  {
    if run != [] {
      var m, s1 := run[0], Next(max, s, run[0]).value;
      TreeMove(max, s, m, s1);
      ConservedMove(max, s, m, s1);
      forall x ensures Occurrences(x, s1) == Count(x, agenda) {
        OccurrencesMove(x, max, s, m, s1);
      }
      FuelMove(max, s, m, s1);
      if NoStall(s) && NoFailures(run) {
        assert !m.fails;
        NoStallMove(max, s, m.p, s1);
      }
      if max <= 1 && NobodyWaits(s) {
        NobodyWaitsMove(max, s, m, s1);
      }
      EveryRun(max, agenda, s1, run[1..]);
    }
  }

  /** In every run, with or without failed forks: permits are conserved, at most max + 1
      processes work at a time, no child list outgrows its array, nothing is handled more often
      than it occurs, and processes that only wait hold no permit. */
  lemma {:induction false} Safety(max: nat, agenda: seq<Job>, run: seq<Move>, s: State)
    requires After(max, Init(max, agenda), run) == Some(s)
    ensures s.sem + Sum(Permits, s.procs) + s.lost == max
    ensures Sum((proc: Proc) => if Working(proc) then 1 else 0, s.procs) <= max + 1
    ensures forall p :: 0 <= p < |s.procs| ==> |s.procs[p].children| <= max
    ensures forall x :: Handled(x, s.done) <= Count(x, agenda)
    ensures Stopped(s) ==> s.sem + s.lost == max
  {
    Initially(max, agenda);
    EveryRun(max, agenda, Init(max, agenda), run);
    WorkersBound(max, s, |s.procs|);
    assert s.procs[..|s.procs|] == s.procs;
    forall p | 0 <= p < |s.procs| ensures |s.procs[p].children| <= max {
      assert ProcOk(max, s, p);
    }
    forall x ensures Handled(x, s.done) <= Count(x, agenda) {
      assert Occurrences(x, s) == Count(x, agenda);
      PendingNonNegative(x, s.procs);
    }
    if Stopped(s) { NoPermitsLeft(s.procs); }
  }

  /** Processes that only wait for their children have given their permits back. */
  lemma {:induction false} NoPermitsLeft(procs: seq<Proc>)
    requires forall p :: 0 <= p < |procs| ==> procs[p].pc.Reap? || procs[p].pc.Exited?
    ensures Sum(Permits, procs) == 0
  {
    if procs != [] { NoPermitsLeft(procs[..|procs| - 1]); }
  }

  lemma {:induction false} PendingNonNegative(x: nat, procs: seq<Proc>)
    ensures Sum(Pending(x), procs) >= 0
  {
    if procs != [] {
      PendingNonNegative(x, procs[..|procs| - 1]);
    }
  }

  /** Every working process but the first holds a permit. */
  lemma {:induction false} WorkersBound(max: nat, s: State, n: nat)
    requires TreeOk(max, s) && 0 < n <= |s.procs|
    ensures Sum((proc: Proc) => if Working(proc) then 1 else 0, s.procs[..n]) <= 1 + Sum(Permits, s.procs[..n])
  {
    assert ProcOk(max, s, n - 1);
    assert s.procs[..n][..n - 1] == s.procs[..n - 1];
    if n > 1 {
      WorkersBound(max, s, n - 1);
    } else {
      assert s.procs[..0] == [];
    }
  }

  /** The process tree is waited for from the top: once the first process is gone, all are. */
  lemma {:induction false} FirstExitsLast(max: nat, s: State, p: nat)
    requires TreeOk(max, s) && p < |s.procs| && s.procs[0].pc.Exited?
    ensures s.procs[p].pc.Exited?
    decreases p
  {
    assert ProcOk(max, s, p);
    if p > 0 && !s.procs[p].pc.Exited? {
      assert ProcOk(max, s, s.procs[p].parent);
      FirstExitsLast(max, s, s.procs[p].parent);
    }
  }

  lemma {:induction false} AllExitedSums(x: nat, procs: seq<Proc>)
    requires forall p :: 0 <= p < |procs| ==> procs[p].pc.Exited?
    ensures Sum(Permits, procs) == 0 && Sum(Pending(x), procs) == 0
  {
    if procs != [] {
      AllExitedSums(x, procs[..|procs| - 1]);
    }
  }

  lemma {:induction false} FuelAtStart(max: nat, agenda: seq<Job>)
    ensures Fuel(max, Init(max, agenda)) == Work(max, agenda) + 2
  {
    var procs := Init(max, agenda).procs;
    assert procs[..0] == [];
    assert Sum(Effort(max), procs) == Effort(max)(procs[0]);
  }

  /** Every run without a failed fork can be continued until all processes have exited, no run
      is longer than a bound known at the start, and at the end all permits are back and every
      item has been handled exactly as often as it occurs. */
  lemma {:induction false} Liveness(max: nat, agenda: seq<Job>, run: seq<Move>, s: State)
    requires After(max, Init(max, agenda), run) == Some(s) && NoFailures(run)
    ensures |run| <= Work(max, agenda) + 2
    ensures Stuck(max, s) ==>
      && AllExited(s)
      && s.sem == max
      && forall x :: Handled(x, s.done) == Count(x, agenda)
  {
    var s0 := Init(max, agenda);
    Initially(max, agenda);
    EveryRun(max, agenda, s0, run);
    FuelNonNegative(max, s, |s.procs|);
    assert s.procs[..|s.procs|] == s.procs;
    FuelAtStart(max, agenda);
    if Stuck(max, s) {
      Progress(max, s);
      forall x ensures Handled(x, s.done) == Count(x, agenda) {
        assert Occurrences(x, s) == Count(x, agenda);
        AllExitedSums(x, s.procs);
      }
      AllExitedSums(0, s.procs);
    }
  }

  // ---------- what failed forks can do ----------

  ghost predicate Reaches(max: nat, agenda: seq<Job>, s: State) {
    exists run :: After(max, Init(max, agenda), run) == Some(s)
  }

  lemma {:induction false} Extend(max: nat, s: State, run: seq<Move>, s1: State, m: Move, s2: State)
    requires After(max, s, run) == Some(s1) && Next(max, s1, m) == Some(s2)
    ensures After(max, s, run + [m]) == Some(s2)
    decreases |run|
  {
    if run == [] {
      assert run + [m] == [m];
      assert After(max, s2, []) == Some(s2);
    } else {
      Extend(max, Next(max, s, run[0]).value, run[1..], s1, m, s2);
      assert (run + [m])[1..] == run[1..] + [m];
    }
  }

  /** One more move of process p; its fork fails if `fails`. */
  lemma {:induction false} Go(max: nat, agenda: seq<Job>, s: State, p: nat, fails: bool, s': State)
    requires Reaches(max, agenda, s) && Next(max, s, Move(p, fails)).Some?
    requires var n := Next(max, s, Move(p, fails)).value;
      && s'.sem == n.sem && s'.lost == n.lost && s'.done == n.done
      && |s'.procs| == |n.procs| && forall i :: 0 <= i < |n.procs| ==> s'.procs[i] == n.procs[i]
    ensures Reaches(max, agenda, s')
  {
    var run :| After(max, Init(max, agenda), run) == Some(s);
    assert s'.procs == Next(max, s, Move(p, fails)).value.procs;
    Extend(max, Init(max, agenda), run, s, Move(p, fails), s');
  }

  /** A job without items of its own. */
  const LEAF := Shared(0, [])

  /** What a process has to do that shall have n processes below it, one below the other. */
  function Nest(n: nat): seq<Job> { if n == 0 then [LEAF] else [Shared(0, Nest(n - 1)), LEAF] }

  function Member(k: nat, pc: Pc, children: seq<nat>): Proc { Proc(pc, children, if k == 0 then 0 else k - 1, k > 0) }

  /** The first k processes, each the parent of the next, all about to call sem_wait. */
  function Waiting(k: nat): (w: seq<Proc>)
    ensures |w| == k && forall i :: 0 <= i < k ==> w[i] == Member(i, Acquire(LEAF, []), [i + 1])
  {
    seq(k, i requires 0 <= i < k => Member(i, Acquire(LEAF, []), [i + 1]))
  }

  /** They and the next process, which has the given pc. */
  function Chain(sem: nat, k: nat, pc: Pc, done: seq<(nat, nat)>): State {
    State(sem, Waiting(k) + [Member(k, pc, [])], 0, done)
  }

  /** The last one of the chain and a process that it has forked. */
  function Pair(sem: nat, k: nat, pc: Pc, last: Pc, done: seq<(nat, nat)>): State {
    State(sem, Waiting(k) + [Member(k, pc, [k + 1]), Member(k + 1, last, [])], 0, done)
  }

  /** The last process of the chain forks one for its first job. */
  lemma {:induction false} ChainForks(max: nat, agenda: seq<Job>, k: nat, job: Job, sem: nat, done: seq<(nat, nat)>)
    requires sem > 0 && max > 0 && job.Shared?
    requires Reaches(max, agenda, Chain(sem, k, Run([job, LEAF]), done))
    ensures Reaches(max, agenda, Pair(sem - 1, k, Run([LEAF]), Run(job.items), done + [(k + 1, job.id)]))
  {
    assert [job, LEAF][1..] == [LEAF];
    Go(max, agenda, Chain(sem, k, Run([job, LEAF]), done), k, false, Chain(sem, k, Poll(0, job, [LEAF]), done));
    Go(max, agenda, Chain(sem, k, Poll(0, job, [LEAF]), done), k, false, Chain(sem, k, Acquire(job, [LEAF]), done));
    Go(max, agenda, Chain(sem, k, Acquire(job, [LEAF]), done), k, false, Chain(sem - 1, k, Fork(job, [LEAF]), done));
    Go(max, agenda, Chain(sem - 1, k, Fork(job, [LEAF]), done), k, false,
       Pair(sem - 1, k, Run([LEAF]), Run(job.items), done + [(k + 1, job.id)]));
  }

  /** The process that has forked sees a permit left for its second job. */
  lemma {:induction false} ParentSeesPermit(max: nat, agenda: seq<Job>, k: nat, last: seq<Job>, sem: nat, done: seq<(nat, nat)>)
    requires sem > 0 && max > 1 && Reaches(max, agenda, Pair(sem, k, Run([LEAF]), Run(last), done))
    ensures Reaches(max, agenda, Chain(sem, k + 1, Run(last), done))
  {
    assert [LEAF][1..] == [];
    Go(max, agenda, Pair(sem, k, Run([LEAF]), Run(last), done), k, false, Pair(sem, k, Poll(0, LEAF, []), Run(last), done));
    Go(max, agenda, Pair(sem, k, Poll(0, LEAF, []), Run(last), done), k, false, Pair(sem, k, Poll(1, LEAF, []), Run(last), done));
    Go(max, agenda, Pair(sem, k, Poll(1, LEAF, []), Run(last), done), k, false, Chain(sem, k + 1, Run(last), done));
  }

  /** The chain can grow until one permit is left. */
  lemma {:induction false} ChainGrows(max: nat, agenda: seq<Job>, k: nat, n: nat, done: seq<(nat, nat)>)
    returns (done': seq<(nat, nat)>)
    requires k + n + 1 == max && Reaches(max, agenda, Chain(n + 1, k, Run(Nest(n)), done))
    ensures Reaches(max, agenda, Chain(1, max - 1, Run([LEAF]), done'))
    decreases n
  {
    if n == 0 {
      done' := done;
    } else {
      ChainForks(max, agenda, k, Shared(0, Nest(n - 1)), n + 1, done);
      ParentSeesPermit(max, agenda, k, Nest(n - 1), n, done + [(k + 1, 0)]);
      done' := ChainGrows(max, agenda, k + 1, n - 1, done + [(k + 1, 0)]);
    }
  }

  /** The whole chain behind its last check, with the first process at the given pc. */
  function Blocked(sem: nat, max: nat, first: Pc, lost: nat, done: seq<(nat, nat)>): State
    requires max >= 2
  {
    State(sem, (Waiting(max - 1) + [Member(max - 1, Acquire(LEAF, []), [])])[0 := Member(0, first, [1])], lost, done)
  }

  lemma {:induction false} AllSeeTheLast(max: nat, agenda: seq<Job>, done: seq<(nat, nat)>)
    requires max >= 2 && Reaches(max, agenda, Chain(1, max - 1, Run([LEAF]), done))
    ensures Reaches(max, agenda, Blocked(1, max, Acquire(LEAF, []), 0, done))
  {
    assert [LEAF][1..] == [];
    Go(max, agenda, Chain(1, max - 1, Run([LEAF]), done), max - 1, false, Chain(1, max - 1, Poll(0, LEAF, []), done));
    Go(max, agenda, Chain(1, max - 1, Poll(0, LEAF, []), done), max - 1, false, Blocked(1, max, Acquire(LEAF, []), 0, done));
  }

  /** The first process takes the last permit and loses it in a failed fork. */
  lemma {:induction false} OneFailureBlocks(max: nat, agenda: seq<Job>, done: seq<(nat, nat)>)
    requires max >= 2 && Reaches(max, agenda, Blocked(1, max, Acquire(LEAF, []), 0, done))
    ensures Reaches(max, agenda, Blocked(0, max, Reap, 1, done + [(0, 0)]))
  {
    assert Items(LEAF) + [] == [];
    Go(max, agenda, Blocked(1, max, Acquire(LEAF, []), 0, done), 0, false, Blocked(0, max, Fork(LEAF, []), 0, done));
    Go(max, agenda, Blocked(0, max, Fork(LEAF, []), 0, done), 0, true, Blocked(0, max, Run([]), 1, done + [(0, 0)]));
    Go(max, agenda, Blocked(0, max, Run([]), 1, done + [(0, 0)]), 0, false, Blocked(0, max, Reap, 1, done + [(0, 0)]));
  }

  /** Nobody can move any more: the first process waits for its child, and all others for a
      permit that nobody will post. */
  lemma {:induction false} BlockedForEver(max: nat, done: seq<(nat, nat)>)
    requires max >= 2
    ensures Stuck(max, Blocked(0, max, Reap, 1, done)) && !AllExited(Blocked(0, max, Reap, 1, done))
  {
    var s := Blocked(0, max, Reap, 1, done);
    assert !s.procs[0].pc.Exited? && !HasExited(s, 1);
  }

  /** Failed forks can leave processes waiting for each other if and only if there are at least
      two permits; a single failed fork is enough. */
  lemma {:induction false} DeadlockIff(max: nat)
    ensures max >= 2 <==>
      exists agenda, s :: Reaches(max, agenda, s) && Stuck(max, s) && !AllExited(s)
    ensures max >= 2 ==>
      exists agenda, s :: Reaches(max, agenda, s) && s.lost == 1 && Stuck(max, s) && !AllExited(s)
  {
    if max >= 2 {
      var agenda := Nest(max - 1);
      assert After(max, Init(max, agenda), []) == Some(Init(max, agenda));
      assert Init(max, agenda).procs == Chain(max, 0, Run(agenda), []).procs;
      var done := ChainGrows(max, agenda, 0, max - 1, []);
      AllSeeTheLast(max, agenda, done);
      OneFailureBlocks(max, agenda, done);
      BlockedForEver(max, done + [(0, 0)]);
    } else {
      forall agenda, s | Reaches(max, agenda, s) && Stuck(max, s) ensures AllExited(s) {
        var run :| After(max, Init(max, agenda), run) == Some(s);
        Initially(max, agenda);
        EveryRun(max, agenda, Init(max, agenda), run);
        Progress(max, s);
      }
    }
  }
}
