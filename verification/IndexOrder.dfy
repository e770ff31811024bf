/** Exactly when the block index comes out in order (src/libpst.c, pst_build_id_ptr): the inner
    nodes of the B-tree decide it, whatever stands in the leaves. */
module IndexOrder {
  import opened Bytes
  import opened Common
  import opened BlockIndex

  /** A call that arrives at a leaf: where, the backlink required, and the bounds handed down. */
  datatype Visit = Visit(offset: nat, linku1: nat, lo: nat, hi: nat)

  /** The leaves that a call arrives at, in order. */
  function Visits(file: File, offset: nat, depth: nat, linku1: nat, start: nat, end: nat): seq<Visit>
    decreases MAX_DEPTH + 1 - depth, 1, 0
  {
    if depth > MAX_DEPTH || end <= start || offset !in file then []
    else
      var node := file[offset];
      match node.records
      case Leaf(_) => [Visit(offset, linku1, start, end)]
      case Inner(pointers) =>
        if node.itemCount > node.maxCount || node.backlink != linku1 then []
        else VisitsFrom(file, node.itemCount, pointers, 0, start, end, depth)
  }

  function VisitsFrom(file: File, count: int, pointers: seq<Pointer>, x: nat, last: nat, end: nat, depth: nat): seq<Visit>
    requires depth <= MAX_DEPTH
    decreases MAX_DEPTH + 1 - depth, 0, count - x
  {
    if !Descends(count, pointers, x, last, end) then []
    else
      var t := pointers[x];
      Visits(file, t.offset, depth + 1, t.u1, t.start, LookAhead(count, pointers, x, end))
      + VisitsFrom(file, count, pointers, x + 1, t.start, end, depth)
  }

  /** What a visit appends. */
  function LeafRun(file: File, v: Visit): seq<Entry> {
    if v.offset !in file then []
    else
      var node := file[v.offset];
      if node.records.Inner? || node.itemCount > node.maxCount || node.backlink != v.linku1 then []
      else LoadEntries(node.itemCount, node.records.entries, 0, v.lo, v.hi).run
  }

  function Gather(file: File, vs: seq<Visit>): seq<Entry> {
    if vs == [] then [] else LeafRun(file, vs[0]) + Gather(file, vs[1..])
  }

  lemma {:induction false} GatherSplits(file: File, a: seq<Visit>, b: seq<Visit>)
    ensures Gather(file, a + b) == Gather(file, a) + Gather(file, b)
  {
    if a == [] {
      assert a + b == b;
    } else {
      WithoutFirst(a, b);
      GatherSplits(file, a[1..], b);
      Associates(LeafRun(file, a[0]), Gather(file, a[1..]), Gather(file, b));
    }
  }

  /** A call appends what its visits append, one after the other. */
  lemma {:induction false} LoadIsGathered(file: File, offset: nat, depth: nat, linku1: nat, start: nat, end: nat)
    ensures Load(file, offset, depth, linku1, start, end).run
         == Gather(file, Visits(file, offset, depth, linku1, start, end))
    decreases MAX_DEPTH + 1 - depth, 1, 0
  {
    if depth <= MAX_DEPTH && start < end && offset in file {
      var node := file[offset];
      match node.records
      case Leaf(entries) =>
        var v := Visit(offset, linku1, start, end);
        assert [v][1..] == [] && LeafRun(file, v) + [] == LeafRun(file, v);
      case Inner(pointers) =>
        PointersAreGathered(file, node.itemCount, pointers, 0, start, end, depth);
    }
  }

  lemma {:induction false} PointersAreGathered(file: File, count: int, pointers: seq<Pointer>, x: nat, last: nat, end: nat,
                                               depth: nat)
    requires depth <= MAX_DEPTH
    ensures LoadPointers(file, count, pointers, x, last, end, depth).run
         == Gather(file, VisitsFrom(file, count, pointers, x, last, end, depth))
    decreases MAX_DEPTH + 1 - depth, 0, count - x
  {
    if Descends(count, pointers, x, last, end) {
      var t, next := pointers[x], LookAhead(count, pointers, x, end);
      LoadIsGathered(file, t.offset, depth + 1, t.u1, t.start, next);
      PointersAreGathered(file, count, pointers, x + 1, t.start, end, depth);
      GatherSplits(file, Visits(file, t.offset, depth + 1, t.u1, t.start, next),
                   VisitsFrom(file, count, pointers, x + 1, t.start, end, depth));
    }
  }

  // ---------- what the inner nodes decide ----------

  /** The same inner nodes, and leaves at the same places. */
  predicate SameInner(file: File, file': File) {
    && file.Keys == file'.Keys
    && forall o :: o in file ==> if file[o].records.Inner? then file'[o] == file[o] else file'[o].records.Leaf?
  }

  lemma {:induction false} SameVisits(file: File, file': File, offset: nat, depth: nat, linku1: nat, start: nat, end: nat)
    requires SameInner(file, file')
    ensures Visits(file', offset, depth, linku1, start, end) == Visits(file, offset, depth, linku1, start, end)
    decreases MAX_DEPTH + 1 - depth, 1, 0
  {
    if depth <= MAX_DEPTH && start < end && offset in file && file[offset].records.Inner? {
      var node := file[offset];
      SameVisitsFrom(file, file', node.itemCount, node.records.pointers, 0, start, end, depth);
    }
  }

  lemma {:induction false} SameVisitsFrom(file: File, file': File, count: int, pointers: seq<Pointer>, x: nat, last: nat,
                                          end: nat, depth: nat)
    requires depth <= MAX_DEPTH && SameInner(file, file')
    ensures VisitsFrom(file', count, pointers, x, last, end, depth) == VisitsFrom(file, count, pointers, x, last, end, depth)
    decreases MAX_DEPTH + 1 - depth, 0, count - x
  {
    if Descends(count, pointers, x, last, end) {
      var t := pointers[x];
      SameVisits(file, file', t.offset, depth + 1, t.u1, t.start, LookAhead(count, pointers, x, end));
      SameVisitsFrom(file, file', count, pointers, x + 1, t.start, end, depth);
    }
  }

  /** A visit to a leaf with room for an id, behind `from`. */
  predicate IsVisit(file: File, v: Visit, from: nat) {
    v.offset in file && file[v.offset].records.Leaf? && from <= v.lo < v.hi
  }

  predicate AreVisits(file: File, vs: seq<Visit>, from: nat) {
    forall i :: 0 <= i < |vs| ==> IsVisit(file, vs[i], from)
  }

  lemma {:induction false} VisitsAreBounded(file: File, offset: nat, depth: nat, linku1: nat, start: nat, end: nat)
    ensures var vs := Visits(file, offset, depth, linku1, start, end);
      AreVisits(file, vs, start) && (|vs| > 1 ==> AreVisits(file, vs, 1))
    decreases MAX_DEPTH + 1 - depth, 1, 0
  {
    if depth <= MAX_DEPTH && start < end && offset in file && file[offset].records.Inner? {
      var node := file[offset];
      VisitsFromAreBounded(file, node.itemCount, node.records.pointers, 0, start, end, depth);
    }
  }

  lemma {:induction false} VisitsFromAreBounded(file: File, count: int, pointers: seq<Pointer>, x: nat, last: nat, end: nat,
                                                depth: nat)
    requires depth <= MAX_DEPTH
    ensures AreVisits(file, VisitsFrom(file, count, pointers, x, last, end, depth), if last > 0 then last else 1)
    decreases MAX_DEPTH + 1 - depth, 0, count - x
  {
    if Descends(count, pointers, x, last, end) {
      var t := pointers[x];
      VisitsAreBounded(file, t.offset, depth + 1, t.u1, t.start, LookAhead(count, pointers, x, end));
      VisitsFromAreBounded(file, count, pointers, x + 1, t.start, end, depth);
    }
  }

  // ---------- the condition ----------

  function Max(a: int, b: int): int { if a < b then b else a }

  /** The interval handed to w follows the one handed to v; they may have one id in common, since
      ids need not be different. If both arrive at the same leaf, it is also enough that the
      backlinks required are different or the intervals have no id in common, so that the leaf can
      fill only one of them, or that v's interval has no id beyond the first common one. */
  predicate Follows(v: Visit, w: Visit) {
    || v.hi - 1 <= w.lo
    || (v.offset == w.offset
        && (v.linku1 != w.linku1 || Max(v.lo, w.lo) >= Min(v.hi, w.hi) || Max(v.lo, w.lo) >= v.hi - 1))
  }

  /** The intervals handed to the leaves follow one another inside the bound. */
  predicate InSequence(vs: seq<Visit>, end: nat) {
    && (forall i :: 0 <= i < |vs| ==> vs[i].hi <= end)
    && (forall i, j :: 0 <= i < j < |vs| ==> Follows(vs[i], vs[j]))
  }

  predicate NotAfter(a: seq<Entry>, b: seq<Entry>) { forall x, y :: x in a && y in b ==> x.id <= y.id }

  lemma {:induction false} Joined(a: seq<Entry>, b: seq<Entry>, lo: nat, hi: nat)
    requires Ascending(a, lo, hi) && Ascending(b, lo, hi) && NotAfter(a, b)
    ensures Ascending(a + b, lo, hi)
  {
    var run := a + b;
    forall i, j | 0 <= i < j < |run| ensures run[i].id <= run[j].id {
      if i < |a| <= j {
        assert run[i] == a[i] && run[j] == b[j - |a|] && a[i] in a && b[j - |a|] in b;
      }
    }
  }

  lemma {:induction false} LeafAscends(file: File, v: Visit)
    ensures Ascending(LeafRun(file, v), v.lo, v.hi)
  {
    if v.offset in file && file[v.offset].records.Leaf? {
      EntriesAscend(file[v.offset].itemCount, file[v.offset].records.entries, 0, v.lo, v.hi);
    }
  }

  lemma {:induction false} InInterval(file: File, v: Visit, e: Entry)
    requires e in LeafRun(file, v)
    ensures v.lo <= e.id < v.hi && LeafRun(file, v)[0].id <= e.id
  {
    LeafAscends(file, v);
    var k :| 0 <= k < |LeafRun(file, v)| && LeafRun(file, v)[k] == e;
  }

  /** Two visits to the same leaf that both find something find the same first entry. */
  lemma {:induction false} SameFirst(file: File, v: Visit, w: Visit)
    requires v.offset == w.offset && LeafRun(file, v) != [] && LeafRun(file, w) != []
    ensures LeafRun(file, v)[0] == LeafRun(file, w)[0] && v.linku1 == w.linku1
  {
  }

  lemma {:induction false} FollowsIsNotAfter(file: File, v: Visit, w: Visit)
    requires Follows(v, w)
    ensures NotAfter(LeafRun(file, v), LeafRun(file, w))
  {
    forall x, y | x in LeafRun(file, v) && y in LeafRun(file, w) ensures x.id <= y.id {
      InInterval(file, v, x);
      InInterval(file, w, y);
      if v.hi - 1 > w.lo {
        SameFirst(file, v, w);
        InInterval(file, v, LeafRun(file, v)[0]);
        InInterval(file, w, LeafRun(file, v)[0]);
      }
    }
  }

  lemma {:induction false} NotAfterRest(file: File, v: Visit, vs: seq<Visit>)
    requires forall j :: 0 <= j < |vs| ==> Follows(v, vs[j])
    ensures NotAfter(LeafRun(file, v), Gather(file, vs))
  {
    if vs != [] {
      FollowsIsNotAfter(file, v, vs[0]);
      NotAfterRest(file, v, vs[1..]);
    }
  }

  lemma {:induction false} Widened(run: seq<Entry>, lo: nat, hi: nat, lo': nat, hi': nat)
    requires Ascending(run, lo, hi) && lo' <= lo && hi <= hi'
    ensures Ascending(run, lo', hi')
  {
  }

  lemma {:induction false} GatherAscends(file: File, vs: seq<Visit>, low: nat, end: nat)
    requires InSequence(vs, end) && AreVisits(file, vs, low)
    ensures Ascending(Gather(file, vs), low, end)
  {
    if vs != [] {
      var v, rest := vs[0], vs[1..];
      assert IsVisit(file, v, low);
      forall i | 0 <= i < |rest| ensures IsVisit(file, rest[i], low) && Follows(v, rest[i]) {
        assert IsVisit(file, vs[i + 1], low);
      }
      GatherAscends(file, rest, low, end);
      LeafAscends(file, v);
      Widened(LeafRun(file, v), v.lo, v.hi, low, end);
      NotAfterRest(file, v, rest);
      Joined(LeafRun(file, v), Gather(file, rest), low, end);
    }
  }

  // ---------- why it is needed ----------

  function Single(id: nat): Entry { Entry(id, 0, 0, 0, 0) }

  /** The file with the given entries in the leaf of visit v. */
  function Filled(file: File, v: Visit, entries: seq<Entry>): File
    requires v.offset in file
  {
    file[v.offset := Node(|entries|, |entries|, v.linku1, Leaf(entries))]
  }

  lemma {:induction false} FilledRun(file: File, v: Visit, entries: seq<Entry>)
    requires v.offset in file && Ascending(entries, v.lo, v.hi)
    ensures LeafRun(Filled(file, v, entries), v) == entries
  {
    assert entries[0..|entries|] == entries;
    AllEntriesLoad(|entries|, entries, 0, v.lo, v.hi);
  }

  lemma {:induction false} GatherHas(file: File, vs: seq<Visit>, i: nat, e: Entry)
    requires i < |vs| && e in LeafRun(file, vs[i])
    ensures e in Gather(file, vs)
  {
    if i > 0 {
      assert vs[1..][i - 1] == vs[i];
      GatherHas(file, vs[1..], i - 1, e);
    }
  }

  lemma {:induction false} EarlierIsNotAfter(a: seq<Entry>, b: seq<Entry>, x: Entry, y: Entry, lo: nat, hi: nat)
    requires Ascending(a + b, lo, hi) && x in a && y in b
    ensures x.id <= y.id
  {
    var i :| 0 <= i < |a| && a[i] == x;
    var j :| 0 <= j < |b| && b[j] == y;
    assert (a + b)[i] == x && (a + b)[|a| + j] == y;
  }

  /** The table can be cut between what an earlier and what a later visit appends. */
  lemma {:induction false} CutBetween(file: File, vs: seq<Visit>, i: nat, j: nat, a: Entry, b: Entry)
    returns (x: seq<Entry>, y: seq<Entry>)
    requires i < j < |vs| && a in LeafRun(file, vs[i]) && b in LeafRun(file, vs[j])
    ensures Gather(file, vs) == x + y && a in x && b in y
  {
    x, y := Gather(file, vs[..j]), Gather(file, vs[j..]);
    GatherCut(file, vs, j);
    GatherHas(file, vs[..j], i, a);
    GatherHas(file, vs[j..], 0, b);
  }

  lemma {:induction false} GatherCut(file: File, vs: seq<Visit>, j: nat)
    requires j <= |vs|
    ensures Gather(file, vs) == Gather(file, vs[..j]) + Gather(file, vs[j..])
  {
    GatherSplits(file, vs[..j], vs[j..]);
    assert vs[..j] + vs[j..] == vs;
  }

  /** Leaves that make v append an id beyond one that w appends. */
  lemma {:induction false} ConflictingLeaves(file: File, v: Visit, w: Visit) returns (file': File, a: Entry, b: Entry)
    requires IsVisit(file, v, 1) && IsVisit(file, w, 1) && !Follows(v, w)
    ensures SameInner(file, file') && a.id > b.id
    ensures a in LeafRun(file', v) && b in LeafRun(file', w)
  {
    a := Single(v.hi - 1);
    if v.offset != w.offset {
      b := Single(w.lo);
      var half := Filled(file, v, [a]);
      file' := Filled(half, w, [b]);
      FilledRun(file, v, [a]);
      FilledRun(half, w, [b]);
      assert LeafRun(file', v) == LeafRun(half, v);
    } else {
      b := Single(Max(v.lo, w.lo));
      var both := [b, a];
      file' := Filled(file, v, both);
      FilledRun(file, v, both);
      BeginsWith(file', w, both);
    }
  }

  lemma {:induction false} BeginsWith(file: File, w: Visit, entries: seq<Entry>)
    requires w.offset in file && entries != [] && entries[0].id != 0 && w.lo <= entries[0].id < w.hi
    requires file[w.offset] == Node(|entries|, |entries|, w.linku1, Leaf(entries))
    ensures entries[0] in LeafRun(file, w)
  {
    assert LeafRun(file, w)[0] == entries[0];
  }

  /** Some contents of the leaves bring the table out of order. */
  lemma {:induction false} SomeFillingFails(file: File, vs: seq<Visit>, start: nat, end: nat) returns (file': File)
    requires AreVisits(file, vs, start) && (|vs| > 1 ==> AreVisits(file, vs, 1))
    requires !InSequence(vs, end) && start < end
    ensures SameInner(file, file') && !Ascending(Gather(file', vs), start, end)
  {
    if i :| 0 <= i < |vs| && vs[i].hi > end {
      file' := BeyondBound(file, vs, i, start, end);
    } else {
      var i, j :| 0 <= i < j < |vs| && !Follows(vs[i], vs[j]);
      assert IsVisit(file, vs[i], 1) && IsVisit(file, vs[j], 1);
      var a, b;
      file', a, b := ConflictingLeaves(file, vs[i], vs[j]);
      var x, y := CutBetween(file', vs, i, j, a, b);
      if Ascending(x + y, start, end) {
        EarlierIsNotAfter(x, y, a, b, start, end);
      }
    }
  }

  lemma {:induction false} BeyondBound(file: File, vs: seq<Visit>, i: nat, start: nat, end: nat) returns (file': File)
    requires i < |vs| && IsVisit(file, vs[i], start) && vs[i].hi > end > start
    ensures SameInner(file, file') && !Ascending(Gather(file', vs), start, end)
  {
    var e := Single(vs[i].hi - 1);
    file' := Filled(file, vs[i], [e]);
    FilledRun(file, vs[i], [e]);
    GatherHas(file', vs, i, e);
    var p :| 0 <= p < |Gather(file', vs)| && Gather(file', vs)[p] == e;
  }

  /** Every call comes out in order and in bounds, whatever stands in the leaves, if and only if
      the intervals that the inner nodes hand to the leaves follow one another inside the bound. */
  lemma {:induction false} InnerNodesDecide(file: File, offset: nat, depth: nat, linku1: nat, start: nat, end: nat)
    ensures InSequence(Visits(file, offset, depth, linku1, start, end), end) <==>
      forall file' :: SameInner(file, file') ==>
        Ascending(Load(file', offset, depth, linku1, start, end).run, start, end)
  {
    var vs := Visits(file, offset, depth, linku1, start, end);
    VisitsAreBounded(file, offset, depth, linku1, start, end);
    if InSequence(vs, end) {
      forall file' | SameInner(file, file')
        ensures Ascending(Load(file', offset, depth, linku1, start, end).run, start, end)
      {
        SameVisits(file, file', offset, depth, linku1, start, end);
        VisitsAreBounded(file', offset, depth, linku1, start, end);
        LoadIsGathered(file', offset, depth, linku1, start, end);
        GatherAscends(file', vs, start, end);
      }
    } else {
      var file' := SomeFillingFails(file, vs, start, end);
      SameVisits(file, file', offset, depth, linku1, start, end);
      LoadIsGathered(file', offset, depth, linku1, start, end);
    }
  }

  /** A whole file whose table is out of order, loaded from the root: the root's first child hands
      its own first child a bound beyond its own. */
  function Disordered(): File {
    map[1 := Node(2, 2, 0, Inner([Pointer(1, 5, 2), Pointer(10, 6, 4)])),
        2 := Node(2, 2, 5, Inner([Pointer(1, 7, 3), Pointer(50, 7, 3)])),
        3 := Node(1, 1, 7, Leaf([Single(40)])),
        4 := Node(1, 1, 6, Leaf([Single(12)]))]
  }

  lemma {:induction false} OneEntry(id: nat, lo: nat, hi: nat)
    requires 0 < id && lo <= id < hi
    ensures LoadEntries(1, [Single(id)], 0, lo, hi).run == [Single(id)]
  {
  }

  lemma {:induction false} RootOutOfOrder()
    ensures Load(Disordered(), 1, 0, 0, 0, UINT64_MAX).run == [Single(40), Single(12)]
    ensures !Ascending([Single(40), Single(12)], 0, UINT64_MAX)
  {
    var file, run := Disordered(), [Single(40), Single(12)];
    assert run[0].id > run[1].id;
    var inner, outer := file[2].records.pointers, file[1].records.pointers;
    OneEntry(40, 1, 50);
    OneEntry(12, 10, UINT64_MAX);
    assert Load(file, 3, 2, 7, 1, 50).run == [Single(40)];
    assert LoadPointers(file, 2, inner, 1, 1, 10, 1).run == [];
    assert LoadPointers(file, 2, inner, 0, 1, 10, 1).run == [Single(40)] + [];
    assert Load(file, 2, 1, 5, 1, 10).run == [Single(40)];
    assert Load(file, 4, 1, 6, 10, UINT64_MAX).run == [Single(12)];
    assert LoadPointers(file, 2, outer, 2, 10, UINT64_MAX, 0).run == [];
    assert LoadPointers(file, 2, outer, 1, 1, UINT64_MAX, 0).run == [Single(12)] + [];
    assert LoadPointers(file, 2, outer, 0, 0, UINT64_MAX, 0).run == [Single(40)] + [Single(12)];
  }
}
