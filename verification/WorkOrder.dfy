/** The order of the work in the parallel folder walk (src/readpst.c). A folder comes before its
    entries, and these come before what follows the folder. Every process keeps to this order,
    and putting the work of each child where it was forked gives the order of the whole. */
module WorkOrder {
  import opened Common
  import opened ForkProtocol

  // ---------- the order ----------

  /** The ids of all entries, a folder before its entries and these before its successors. */
  function Preorder(jobs: seq<Job>): seq<nat> {
    if jobs == [] then [] else PreorderOf(jobs[0]) + Preorder(jobs[1..])
  }

  function PreorderOf(job: Job): seq<nat> {
    [job.id] + if job.Shared? then Preorder(job.items) else []
  }

  lemma {:induction false} PreorderAppend(a: seq<Job>, b: seq<Job>)
    ensures Preorder(a + b) == Preorder(a) + Preorder(b)
  {
    if a == [] {
      assert a + b == b;
    } else {
      PreorderAppend(a[1..], b);
      WithoutFirst(a, b);
      Associates(PreorderOf(a[0]), Preorder(a[1..]), Preorder(b));
    }
  }

  /** What a process has still to do. */
  function Todo(pc: Pc): seq<Job> {
    match pc
    case Run(agenda) => agenda
    case Poll(_, job, agenda) => [job] + agenda
    case Acquire(job, agenda) => [job] + agenda
    case Fork(job, agenda) => [job] + agenda
    case Reap => []
    case Exited => []
  }

  // ---------- what the log says about a process ----------

  /** A process handles an item itself, or hands one over to a new child. */
  datatype Piece = Own(id: nat) | Handed(child: nat)

  predicate Unlogged(q: nat, done: seq<(nat, nat)>) { forall i :: 0 <= i < |done| ==> done[i].0 != q }

  /** The entries of the log that concern process p: its own, and the first one of each child. */
  function Pieces(p: nat, procs: seq<Proc>, done: seq<(nat, nat)>): seq<Piece> {
    if done == [] then []
    else
      var earlier, e := done[..|done| - 1], done[|done| - 1];
      Pieces(p, procs, earlier) +
      if e.0 == p then [Own(e.1)]
      else if p < e.0 < |procs| && procs[e.0].parent == p && Unlogged(e.0, earlier) then [Handed(e.0)]
      else []
  }

  /** The ids that process p has logged. */
  function LoggedBy(p: nat, done: seq<(nat, nat)>): seq<nat> {
    if done == [] then []
    else LoggedBy(p, done[..|done| - 1]) + if done[|done| - 1].0 == p then [done[|done| - 1].1] else []
  }

  /** All the work of process p: what it has handled and what it has still to do, with the work of
      each child in the place where the child was forked. */
  function Whole(p: nat, procs: seq<Proc>, done: seq<(nat, nat)>): seq<nat>
    requires p < |procs|
    decreases |procs| - p, 1, 0
  {
    WorkOf(p, procs, done, Pieces(p, procs, done)) + Preorder(Todo(procs[p].pc))
  }

  function WorkOf(p: nat, procs: seq<Proc>, done: seq<(nat, nat)>, pieces: seq<Piece>): seq<nat>
    requires p < |procs|
    decreases |procs| - p, 0, |pieces|
  {
    if pieces == [] then []
    else WorkOf(p, procs, done, pieces[..|pieces| - 1]) + WorkOfOne(p, procs, done, pieces[|pieces| - 1])
  }

  function WorkOfOne(p: nat, procs: seq<Proc>, done: seq<(nat, nat)>, piece: Piece): seq<nat>
    requires p < |procs|
    decreases |procs| - p, 0, 0
  {
    match piece
    case Own(id) => [id]
    case Handed(q) => if p < q < |procs| then Whole(q, procs, done) else []
  }

  // ---------- what a move does ----------

  /** Every entry of the log is about a process there is, and every child has one. */
  predicate LogOk(s: State) {
    && (forall i :: 0 <= i < |s.done| ==> s.done[i].0 < |s.procs|)
    && (forall q :: 0 < q < |s.procs| ==> !Unlogged(q, s.done))
  }

  /** The moving process has handled nothing and has the same to do. */
  predicate Quiet(s: State, p: nat, s': State) {
    && p < |s.procs| == |s'.procs| && s'.done == s.done
    && Preorder(Todo(s'.procs[p].pc)) == Preorder(Todo(s.procs[p].pc))
  }

  /** It has handled the next item itself. */
  predicate HandlesNext(s: State, p: nat, s': State, id: nat) {
    && p < |s.procs| == |s'.procs| && s'.done == s.done + [(p, id)]
    && Preorder(Todo(s.procs[p].pc)) == [id] + Preorder(Todo(s'.procs[p].pc))
  }

  /** It has handed the next job over to a new child. */
  predicate HandsOver(s: State, p: nat, s': State, job: Job) {
    var child := |s.procs|;
    && job.Shared? && p < child && |s'.procs| == child + 1 && s'.done == s.done + [(child, job.id)]
    && s'.procs[child].parent == p
    && Preorder(Todo(s.procs[p].pc)) == PreorderOf(job) + Preorder(Todo(s'.procs[p].pc))
    && PreorderOf(job) == [job.id] + Preorder(Todo(s'.procs[child].pc))
  }

  /** Only shared jobs wait for a permit. */
  predicate SharedOnly(s: State) {
    forall p :: 0 <= p < |s.procs| ==>
      match s.procs[p].pc
      case Poll(_, job, _) => job.Shared?
      case Acquire(job, _) => job.Shared?
      case Fork(job, _) => job.Shared?
      case _ => true
  }

  lemma {:induction false} NextIsFirst(job: Job, agenda: seq<Job>)
    ensures Preorder([job] + agenda) == PreorderOf(job) + Preorder(agenda)
    ensures Preorder([job] + agenda) == [job.id] + Preorder(Items(job) + agenda)
  {
    WithoutFirst([job], agenda);
    PreorderAppend(Items(job), agenda);
    Associates([job.id], Preorder(Items(job)), Preorder(agenda));
    assert PreorderOf(job) == [job.id] + Preorder(Items(job));
  }

  lemma {:induction false} SharedMove(max: nat, s: State, m: Move, s': State)
    requires Next(max, s, m) == Some(s') && SharedOnly(s)
    ensures SharedOnly(s')
  {
  }

  lemma {:induction false} MoveEffect(max: nat, s: State, m: Move, s': State)
    requires Next(max, s, m) == Some(s') && SharedOnly(s)
    ensures || Quiet(s, m.p, s')
            || (exists id :: HandlesNext(s, m.p, s', id))
            || (s.procs[m.p].pc.Fork? && HandsOver(s, m.p, s', s.procs[m.p].pc.job))
  {
    var pc := s.procs[m.p].pc;
    if pc.Run? {
      RunEffect(max, s, m, s');
    } else if pc.Poll? {
      PollEffect(max, s, m, s');
    } else if pc.Fork? {
      ForkEffect(max, s, m, s');
    }
  }

  lemma {:induction false} RunEffect(max: nat, s: State, m: Move, s': State)
    requires Next(max, s, m) == Some(s') && s.procs[m.p].pc.Run?
    ensures Quiet(s, m.p, s') || exists id :: HandlesNext(s, m.p, s', id)
  {
    var agenda := s.procs[m.p].pc.agenda;
    if agenda != [] {
      assert [agenda[0]] + agenda[1..] == agenda;
      NextIsFirst(agenda[0], agenda[1..]);
      assert !agenda[0].Shared? ==> HandlesNext(s, m.p, s', agenda[0].id);
    }
  }

  lemma {:induction false} PollEffect(max: nat, s: State, m: Move, s': State)
    requires Next(max, s, m) == Some(s') && s.procs[m.p].pc.Poll?
    ensures Quiet(s, m.p, s') || HandlesNext(s, m.p, s', s.procs[m.p].pc.job.id)
  {
    var pc, pc' := s.procs[m.p].pc, s'.procs[m.p].pc;
    NextIsFirst(pc.job, pc.agenda);
    if s'.done != s.done {
      assert s'.done == s.done + [(m.p, pc.job.id)] && pc' == Run(Items(pc.job) + pc.agenda);
    } else {
      assert Todo(pc') == Todo(pc);
    }
  }

  lemma {:induction false} ForkEffect(max: nat, s: State, m: Move, s': State)
    requires Next(max, s, m) == Some(s') && s.procs[m.p].pc.Fork? && SharedOnly(s)
    ensures HandlesNext(s, m.p, s', s.procs[m.p].pc.job.id) || HandsOver(s, m.p, s', s.procs[m.p].pc.job)
  {
    var pc := s.procs[m.p].pc;
    NextIsFirst(pc.job, pc.agenda);
  }

  // ---------- no move changes the whole ----------

  /** Nothing but the log and what the processes p and, if it is new, the last one have to do. */
  predicate OthersStay(s: State, p: nat, s': State) {
    && p < |s.procs| <= |s'.procs| <= |s.procs| + 1
    && (forall q :: 0 <= q < |s.procs| ==> s'.procs[q].parent == s.procs[q].parent)
    && (forall q :: 0 <= q < |s.procs| && q != p ==> s'.procs[q].pc == s.procs[q].pc)
  }

  lemma {:induction false} MoveTouchesOne(max: nat, s: State, m: Move, s': State)
    requires Next(max, s, m) == Some(s')
    ensures OthersStay(s, m.p, s')
  {
  }

  lemma {:induction false} PiecesStay(p: nat, procs: seq<Proc>, procs': seq<Proc>, done: seq<(nat, nat)>)
    requires |procs| <= |procs'| && forall q :: 0 <= q < |procs| ==> procs'[q].parent == procs[q].parent
    requires forall i :: 0 <= i < |done| ==> done[i].0 < |procs|
    ensures Pieces(p, procs', done) == Pieces(p, procs, done)
  {
    if done != [] { PiecesStay(p, procs, procs', done[..|done| - 1]); }
  }

  lemma {:induction false} PiecesGrow(p: nat, procs: seq<Proc>, done: seq<(nat, nat)>, e: (nat, nat))
    ensures Pieces(p, procs, done + [e]) == Pieces(p, procs, done) +
      if e.0 == p then [Own(e.1)]
      else if p < e.0 < |procs| && procs[e.0].parent == p && Unlogged(e.0, done) then [Handed(e.0)]
      else []
  {
    assert (done + [e])[..|done|] == done;
  }

  lemma {:induction false} NoPieces(p: nat, procs: seq<Proc>, done: seq<(nat, nat)>)
    requires forall i :: 0 <= i < |done| ==> done[i].0 < p
    ensures Pieces(p, procs, done) == []
  {
    if done != [] { NoPieces(p, procs, done[..|done| - 1]); }
  }

  lemma {:induction false} WorkGrows(p: nat, procs: seq<Proc>, done: seq<(nat, nat)>, pieces: seq<Piece>, piece: Piece)
    requires p < |procs|
    ensures WorkOf(p, procs, done, pieces + [piece]) == WorkOf(p, procs, done, pieces) + WorkOfOne(p, procs, done, piece)
    ensures WorkOf(p, procs, done, [piece]) == WorkOfOne(p, procs, done, piece)
  {
    assert (pieces + [piece])[..|pieces|] == pieces;
  }

  lemma {:induction false} HandedAreProcs(p: nat, procs: seq<Proc>, done: seq<(nat, nat)>)
    ensures AllBelow(Pieces(p, procs, done), |procs|)
  {
    if done != [] { HandedAreProcs(p, procs, done[..|done| - 1]); }
  }

  /** The new child's whole work is the job handed over to it. */
  lemma {:induction false} ChildsWhole(s: State, p: nat, s': State, job: Job)
    requires LogOk(s) && HandsOver(s, p, s', job)
    ensures Whole(|s.procs|, s'.procs, s'.done) == PreorderOf(job)
  {
    var child := |s.procs|;
    NoPieces(child, s'.procs, s.done);
    PiecesGrow(child, s'.procs, s.done, (child, job.id));
    WorkGrows(child, s'.procs, s'.done, [], Own(job.id));
  }

  /** What the log gains about process q when p has moved. */
  predicate Gains(s: State, p: nat, s': State, q: nat, gain: seq<Piece>) {
    Pieces(q, s'.procs, s'.done) == Pieces(q, s.procs, s.done) + if q == p then gain else []
  }

  lemma {:induction false} QuietGains(s: State, p: nat, s': State, q: nat)
    requires LogOk(s) && OthersStay(s, p, s') && Quiet(s, p, s')
    ensures LogOk(s') && Gains(s, p, s', q, [])
  {
    PiecesStay(q, s.procs, s'.procs, s.done);
  }

  lemma {:induction false} StillLogged(q: nat, done: seq<(nat, nat)>, e: (nat, nat))
    requires !Unlogged(q, done)
    ensures !Unlogged(q, done + [e])
  {
    var i :| 0 <= i < |done| && done[i].0 == q;
    assert (done + [e])[i].0 == q;
  }

  lemma {:induction false} LogStaysOk(s: State, s': State, e: (nat, nat))
    requires LogOk(s) && s'.done == s.done + [e] && |s.procs| <= |s'.procs| && e.0 < |s'.procs|
    requires |s'.procs| > |s.procs| ==> |s'.procs| == |s.procs| + 1 && e.0 == |s.procs|
    ensures LogOk(s')
  {
    forall q | 0 < q < |s'.procs| ensures !Unlogged(q, s'.done) {
      if q < |s.procs| {
        StillLogged(q, s.done, e);
      } else {
        assert s'.done[|s.done|].0 == q;
      }
    }
  }

  lemma {:induction false} OwnGains(s: State, p: nat, s': State, id: nat, q: nat)
    requires LogOk(s) && OthersStay(s, p, s') && HandlesNext(s, p, s', id)
    ensures LogOk(s') && Gains(s, p, s', q, [Own(id)])
  {
    PiecesStay(q, s.procs, s'.procs, s.done);
    PiecesGrow(q, s'.procs, s.done, (p, id));
    LogStaysOk(s, s', (p, id));
  }

  lemma {:induction false} HandedGains(s: State, p: nat, s': State, job: Job, q: nat)
    requires LogOk(s) && OthersStay(s, p, s') && HandsOver(s, p, s', job) && q < |s.procs|
    ensures LogOk(s') && Gains(s, p, s', q, [Handed(|s.procs|)])
  {
    PiecesStay(q, s.procs, s'.procs, s.done);
    PiecesGrow(q, s'.procs, s.done, (|s.procs|, job.id));
    LogStaysOk(s, s', (|s.procs|, job.id));
  }

  /** What process p had to do is what it has gained and what it has now to do. */
  predicate Balanced(s: State, p: nat, s': State, gain: seq<Piece>) {
    && OthersStay(s, p, s') && |gain| <= 1
    && (forall q :: 0 <= q < |s.procs| ==> Gains(s, p, s', q, gain))
    && Preorder(Todo(s.procs[p].pc)) == WorkOf(p, s'.procs, s'.done, gain) + Preorder(Todo(s'.procs[p].pc))
  }

  predicate AllBelow(pieces: seq<Piece>, n: nat) {
    forall i :: 0 <= i < |pieces| ==> pieces[i].Handed? ==> pieces[i].child < n
  }

  /** Then its whole work and that of all others is as before. */
  lemma {:induction false} WholeStays(s: State, p: nat, s': State, gain: seq<Piece>, q: nat)
    requires q < |s.procs| && Balanced(s, p, s', gain)
    ensures Whole(q, s'.procs, s'.done) == Whole(q, s.procs, s.done)
    decreases |s.procs| - q, 1, 0
  {
    var pieces := Pieces(q, s.procs, s.done);
    HandedAreProcs(q, s.procs, s.done);
    WorkStays(s, p, s', gain, q, pieces);
    assert Gains(s, p, s', q, gain);
    if q == p {
      WorkAppended(p, s'.procs, s'.done, pieces, gain);
      Associates(WorkOf(p, s.procs, s.done, pieces), WorkOf(p, s'.procs, s'.done, gain), Preorder(Todo(s'.procs[p].pc)));
    } else {
      assert pieces + [] == pieces;
    }
  }

  lemma {:induction false} WorkAppended(p: nat, procs: seq<Proc>, done: seq<(nat, nat)>, pieces: seq<Piece>, gain: seq<Piece>)
    requires p < |procs| && |gain| <= 1
    ensures WorkOf(p, procs, done, pieces + gain) == WorkOf(p, procs, done, pieces) + WorkOf(p, procs, done, gain)
  {
    if gain == [] {
      assert pieces + gain == pieces;
    } else {
      var g := gain[0];
      assert gain == [g];
      WorkGrows(p, procs, done, pieces, g);
    }
  }

  lemma {:induction false} WorkStays(s: State, p: nat, s': State, gain: seq<Piece>, q: nat, pieces: seq<Piece>)
    requires q < |s.procs| && Balanced(s, p, s', gain) && AllBelow(pieces, |s.procs|)
    ensures WorkOf(q, s'.procs, s'.done, pieces) == WorkOf(q, s.procs, s.done, pieces)
    decreases |s.procs| - q, 0, |pieces|
  {
    if pieces != [] {
      var n := |pieces| - 1;
      WorkStays(s, p, s', gain, q, pieces[..n]);
      if pieces[n].Handed? && q < pieces[n].child { WholeStays(s, p, s', gain, pieces[n].child); }
    }
  }

  lemma {:induction false} QuietIsBalanced(s: State, p: nat, s': State)
    requires LogOk(s) && OthersStay(s, p, s') && Quiet(s, p, s')
    ensures LogOk(s') && Balanced(s, p, s', [])
  {
    forall q | 0 <= q < |s.procs| ensures Gains(s, p, s', q, []) { QuietGains(s, p, s', q); }
  }

  lemma {:induction false} OwnIsBalanced(s: State, p: nat, s': State, id: nat)
    requires LogOk(s) && OthersStay(s, p, s') && HandlesNext(s, p, s', id)
    ensures LogOk(s') && Balanced(s, p, s', [Own(id)])
  {
    LogStaysOk(s, s', (p, id));
    forall q | 0 <= q < |s.procs| ensures Gains(s, p, s', q, [Own(id)]) { OwnGains(s, p, s', id, q); }
    WorkGrows(p, s'.procs, s'.done, [], Own(id));
  }

  lemma {:induction false} HandedIsBalanced(s: State, p: nat, s': State, job: Job)
    requires LogOk(s) && OthersStay(s, p, s') && HandsOver(s, p, s', job)
    ensures LogOk(s') && Balanced(s, p, s', [Handed(|s.procs|)])
    ensures Whole(|s.procs|, s'.procs, s'.done) == PreorderOf(job)
  {
    var child := |s.procs|;
    LogStaysOk(s, s', (child, job.id));
    forall q | 0 <= q < child ensures Gains(s, p, s', q, [Handed(child)]) { HandedGains(s, p, s', job, q); }
    ChildsWhole(s, p, s', job);
    WorkGrows(p, s'.procs, s'.done, [], Handed(child));
  }

  lemma {:induction false} MoveIsBalanced(max: nat, s: State, m: Move, s': State) returns (gain: seq<Piece>)
    requires LogOk(s) && SharedOnly(s) && Next(max, s, m) == Some(s')
    ensures LogOk(s') && SharedOnly(s') && Balanced(s, m.p, s', gain)
    ensures |s'.procs| > |s.procs| ==> IsWork(s', |s.procs|, s.procs[m.p].pc)
  {
    SharedMove(max, s, m, s');
    MoveEffect(max, s, m, s');
    MoveTouchesOne(max, s, m, s');
    if Quiet(s, m.p, s') {
      QuietIsBalanced(s, m.p, s');
      gain := [];
    } else if id :| HandlesNext(s, m.p, s', id) {
      OwnIsBalanced(s, m.p, s', id);
      gain := [Own(id)];
    } else {
      HandedIsBalanced(s, m.p, s', s.procs[m.p].pc.job);
      gain := [Handed(|s.procs|)];
    }
  }

  /** The whole work of process p is the job that the given pc is about to fork for. */
  predicate IsWork(s: State, p: nat, pc: Pc) {
    p < |s.procs| && pc.Fork? && pc.job.Shared? && Whole(p, s.procs, s.done) == PreorderOf(pc.job)
  }

  /** A move changes the whole work of no process, and that of a new child is the job it was
      forked for. */
  lemma {:induction false} WholeMove(max: nat, s: State, m: Move, s': State)
    requires LogOk(s) && SharedOnly(s) && Next(max, s, m) == Some(s')
    ensures LogOk(s') && SharedOnly(s') && m.p < |s.procs| <= |s'.procs|
    ensures forall q :: 0 <= q < |s.procs| ==> Whole(q, s'.procs, s'.done) == Whole(q, s.procs, s.done)
    ensures forall q :: |s.procs| <= q < |s'.procs| ==> IsWork(s', q, s.procs[m.p].pc)
  {
    var gain := MoveIsBalanced(max, s, m, s');
    forall q | 0 <= q < |s.procs| ensures Whole(q, s'.procs, s'.done) == Whole(q, s.procs, s.done) {
      WholeStays(s, m.p, s', gain, q);
    }
  }

  // ---------- jobs of the agenda ----------

  /** The job is on the agenda, at any depth. */
  predicate OnAgenda(job: Job, agenda: seq<Job>) {
    agenda != [] &&
    (|| agenda[0] == job
     || (agenda[0].Shared? && OnAgenda(job, agenda[0].items))
     || OnAgenda(job, agenda[1..]))
  }

  lemma {:induction false} MemberIsOn(job: Job, agenda: seq<Job>)
    requires job in agenda
    ensures OnAgenda(job, agenda)
  {
    if agenda[0] != job { MemberIsOn(job, agenda[1..]); }
  }

  lemma {:induction false} ItemIsOn(item: Job, job: Job, agenda: seq<Job>)
    requires OnAgenda(job, agenda) && item in Items(job)
    ensures OnAgenda(item, agenda)
  {
    if agenda[0] == job {
      MemberIsOn(item, job.items);
    } else if agenda[0].Shared? && OnAgenda(job, agenda[0].items) {
      ItemIsOn(item, job, agenda[0].items);
    } else {
      ItemIsOn(item, job, agenda[1..]);
    }
  }

  predicate TodoOn(s: State, p: nat, agenda: seq<Job>)
    requires p < |s.procs|
  {
    forall i :: 0 <= i < |Todo(s.procs[p].pc)| ==> OnAgenda(Todo(s.procs[p].pc)[i], agenda)
  }

  predicate AllTodoOn(s: State, agenda: seq<Job>) { forall p :: 0 <= p < |s.procs| ==> TodoOn(s, p, agenda) }

  /** What the mover has to do is what it had to do before or an item of its next job, and that
      holds for a new child as well. */
  lemma {:induction false} TodoMove(max: nat, s: State, m: Move, s': State, p: nat, job: Job)
    requires Next(max, s, m) == Some(s') && p < |s'.procs| && job in Todo(s'.procs[p].pc)
    requires p == m.p || |s.procs| <= p
    ensures var mine := Todo(s.procs[m.p].pc); job in mine || (mine != [] && job in Items(mine[0]))
  {
  }

  lemma {:induction false} AllTodoMove(max: nat, s: State, m: Move, s': State, agenda: seq<Job>)
    requires AllTodoOn(s, agenda) && Next(max, s, m) == Some(s')
    ensures AllTodoOn(s', agenda)
  {
    forall p, i | 0 <= p < |s'.procs| && 0 <= i < |Todo(s'.procs[p].pc)|
      ensures OnAgenda(Todo(s'.procs[p].pc)[i], agenda)
    {
      var job, mine := Todo(s'.procs[p].pc)[i], Todo(s.procs[m.p].pc);
      assert TodoOn(s, m.p, agenda);
      if p < |s.procs| && p != m.p {
        MoveTouchesOne(max, s, m, s');
        assert TodoOn(s, p, agenda);
      } else {
        TodoMove(max, s, m, s', p, job);
        if job !in mine { ItemIsOn(job, mine[0], agenda); }
      }
    }
  }

  // ---------- whole runs ----------

  /** The whole work of a process is that of one shared job of the agenda. */
  ghost predicate OneJob(s: State, p: nat, agenda: seq<Job>)
    requires p < |s.procs|
  {
    exists job :: OnAgenda(job, agenda) && job.Shared? && Whole(p, s.procs, s.done) == PreorderOf(job)
  }

  ghost predicate InOrder(s: State, agenda: seq<Job>) {
    && LogOk(s) && SharedOnly(s) && AllTodoOn(s, agenda) && s.procs != []
    && Whole(0, s.procs, s.done) == Preorder(agenda)
    && forall q :: 0 < q < |s.procs| ==> OneJob(s, q, agenda)
  }

  lemma {:induction false} InOrderMove(max: nat, s: State, m: Move, s': State, agenda: seq<Job>)
    requires InOrder(s, agenda) && Next(max, s, m) == Some(s')
    ensures InOrder(s', agenda)
  {
    WholeMove(max, s, m, s');
    AllTodoMove(max, s, m, s', agenda);
    forall q | 0 < q < |s'.procs| ensures OneJob(s', q, agenda) {
      if q < |s.procs| {
        assert OneJob(s, q, agenda);
      } else {
        var pc := s.procs[m.p].pc;
        assert IsWork(s', q, pc);
        assert TodoOn(s, m.p, agenda) && Todo(pc)[0] == pc.job;
      }
    }
  }

  lemma {:induction false} InOrderRun(max: nat, s: State, run: seq<Move>, s': State, agenda: seq<Job>)
    requires InOrder(s, agenda) && After(max, s, run) == Some(s')
    ensures InOrder(s', agenda)
    decreases |run|
  {
    if run != [] {
      var s1 := Next(max, s, run[0]).value;
      InOrderMove(max, s, run[0], s1, agenda);
      InOrderRun(max, s1, run[1..], s', agenda);
    }
  }

  /** What a process has logged, followed by what it has to do, is part of its whole work. */
  lemma {:induction false} OwnWork(p: nat, procs: seq<Proc>, done: seq<(nat, nat)>, all: seq<(nat, nat)>)
    requires p < |procs|
    ensures Subsequence(LoggedBy(p, done), WorkOf(p, procs, all, Pieces(p, procs, done)))
    ensures Childless(p, procs) ==> LoggedBy(p, done) == WorkOf(p, procs, all, Pieces(p, procs, done))
    decreases |done|
  {
    if done != [] {
      var earlier, e := done[..|done| - 1], done[|done| - 1];
      var pieces := Pieces(p, procs, earlier);
      OwnWork(p, procs, earlier, all);
      PiecesGrow(p, procs, earlier, e);
      assert done == earlier + [e];
      var work := WorkOf(p, procs, all, pieces);
      if e.0 == p {
        WorkGrows(p, procs, all, pieces, Own(e.1));
        SubsequenceAppend(LoggedBy(p, earlier), work, [e.1]);
      } else {
        WorkGrows(p, procs, all, pieces, Handed(e.0));
        SubsequenceAppend(LoggedBy(p, earlier), work, WorkOfOne(p, procs, all, Handed(e.0)));
        assert LoggedBy(p, earlier) + [] == LoggedBy(p, earlier) && pieces + [] == pieces;
      }
    }
  }

  /** The process has forked nothing. */
  predicate Childless(p: nat, procs: seq<Proc>) { forall q :: p < q < |procs| ==> procs[q].parent != p }

  /** In every run, with or without failed forks, the work of all processes, each child's in the
      place where it was forked, is the agenda in its order, and the work of each child is one
      job of it. Every process keeps to its part of that order: what it has logged and what it
      has to do is left of it when the work of others is dropped, and all of it if it has no
      children. */
  lemma {:induction false} Order(max: nat, agenda: seq<Job>, run: seq<Move>, s: State)
    requires After(max, Init(max, agenda), run) == Some(s)
    ensures s.procs != [] && Whole(0, s.procs, s.done) == Preorder(agenda)
    ensures forall q :: 0 < q < |s.procs| ==> OneJob(s, q, agenda)
    ensures forall p :: 0 <= p < |s.procs| ==>
      Subsequence(LoggedBy(p, s.done) + Preorder(Todo(s.procs[p].pc)), Whole(p, s.procs, s.done))
    ensures forall p :: 0 <= p < |s.procs| && Childless(p, s.procs) ==>
      LoggedBy(p, s.done) + Preorder(Todo(s.procs[p].pc)) == Whole(p, s.procs, s.done)
  {
    StartsInOrder(max, agenda);
    InOrderRun(max, Init(max, agenda), run, s, agenda);
    forall p | 0 <= p < |s.procs|
      ensures Subsequence(LoggedBy(p, s.done) + Preorder(Todo(s.procs[p].pc)), Whole(p, s.procs, s.done))
      ensures Childless(p, s.procs) ==>
        LoggedBy(p, s.done) + Preorder(Todo(s.procs[p].pc)) == Whole(p, s.procs, s.done)
    {
      OwnWork(p, s.procs, s.done, s.done);
      SubsequenceAppend(LoggedBy(p, s.done), WorkOf(p, s.procs, s.done, Pieces(p, s.procs, s.done)),
                        Preorder(Todo(s.procs[p].pc)));
    }
  }

  lemma {:induction false} StartsInOrder(max: nat, agenda: seq<Job>)
    ensures InOrder(Init(max, agenda), agenda)
  {
    var s := Init(max, agenda);
    assert [] + Preorder(agenda) == Preorder(agenda);
    forall i | 0 <= i < |agenda| ensures OnAgenda(agenda[i], agenda) { MemberIsOn(agenda[i], agenda); }
    assert TodoOn(s, 0, agenda);
  }

  // ---------- without permits ----------

  lemma {:induction false} NobodyForks(s: State, p: nat)
    requires Conserved(0, s) && p < |s.procs|
    ensures !s.procs[p].pc.Fork?
  {
    SumAtLeast(s.procs, p);
  }

  lemma {:induction false} StaysAlone(s: State, run: seq<Move>, s': State)
    requires |s.procs| == 1 && Conserved(0, s) && (forall i :: 0 <= i < |s.done| ==> s.done[i].0 == 0)
    requires After(0, s, run) == Some(s')
    ensures |s'.procs| == 1 && forall i :: 0 <= i < |s'.done| ==> s'.done[i].0 == 0
    decreases |run|
  {
    if run != [] {
      var s1 := Next(0, s, run[0]).value;
      NobodyForks(s, run[0].p);
      ConservedMove(0, s, run[0], s1);
      StaysAlone(s1, run[1..], s');
    }
  }

  function Ids(done: seq<(nat, nat)>): seq<nat> {
    if done == [] then [] else Ids(done[..|done| - 1]) + [done[|done| - 1].1]
  }

  lemma {:induction false} AllByFirst(done: seq<(nat, nat)>)
    requires forall i :: 0 <= i < |done| ==> done[i].0 == 0
    ensures LoggedBy(0, done) == Ids(done)
  {
    if done != [] { AllByFirst(done[..|done| - 1]); }
  }

  /** Without permits there is one process, and it handles the agenda in its order. */
  lemma {:induction false} SequentialOrder(agenda: seq<Job>, run: seq<Move>, s: State)
    requires After(0, Init(0, agenda), run) == Some(s)
    ensures |s.procs| == 1 && Ids(s.done) + Preorder(Todo(s.procs[0].pc)) == Preorder(agenda)
    ensures Stuck(0, s) ==> Ids(s.done) == Preorder(agenda)
  {
    Initially(0, agenda);
    StaysAlone(Init(0, agenda), run, s);
    Order(0, agenda, run, s);
    AllByFirst(s.done);
    if Stuck(0, s) {
      EveryRun(0, agenda, Init(0, agenda), run);
      Progress(0, s);
    }
  }

  /** The folder 1 with the message 2 in it, and the message 3 behind it. */
  lemma {:induction false} FolderComesFirst(agenda: seq<Job>)
    requires agenda == [Shared(1, [Local(2)]), Local(3)]
    ensures Preorder(agenda) == [1, 2, 3]
  {
    assert Preorder([Local(2)]) == [2] && Preorder([Local(3)]) == [3];
    assert agenda[1..] == [Local(3)];
  }
}
