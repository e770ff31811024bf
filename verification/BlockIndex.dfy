/** Loading the block index and looking blocks up (src/libpst.c): a checked walk over the
    B-tree of section 2.2.2.7.7 of [MS-PST] fills a growing table, which is then searched. */
module BlockIndex {
  import opened Common

  const UINT64_MAX := 0xffff_ffff_ffff_ffff

  /** A record of a leaf, and an entry of the table. */
  datatype Entry = Entry(id: nat, offset: nat, size: nat, inflatedSize: nat, u1: nat)

  /** A record of an inner node: where a child is, its backlink, and its smallest id. */
  datatype Pointer = Pointer(start: nat, u1: nat, offset: nat)

  /** A node as decoded: its counts and backlink, and the records that lie inside the block.
      There may be fewer of them than the count says. */
  datatype Node = Node(itemCount: int, maxCount: int, backlink: nat, records: Records)

  datatype Records = Leaf(entries: seq<Entry>) | Inner(pointers: seq<Pointer>)

  /** The nodes that can be read, by their offset in the file. */
  type File = map<nat, Node>

  /** What a call appends to the table, and whether it returns 0 rather than -1. */
  datatype Outcome = Outcome(run: seq<Entry>, ok: bool) {
    function Before(later: Outcome): Outcome { Outcome(run + later.run, later.ok) }
  }

  lemma {:induction false} BeforeAssociates(a: Outcome, b: Outcome, c: Outcome)
    ensures a.Before(b.Before(c)) == a.Before(b).Before(c)
    ensures a.Before(STOP) == Outcome(a.run, true) && a.Before(FAIL) == Outcome(a.run, false)
  {
    assert a.run + (b.run + c.run) == (a.run + b.run) + c.run;
  }

  const STOP := Outcome([], true)
  const FAIL := Outcome([], false)

  function LoadEntries(count: int, entries: seq<Entry>, x: nat, last: nat, end: nat): Outcome
    decreases count - x
  {
    if x >= count then STOP
    else if x >= |entries| then FAIL
    else
      var e := entries[x];
      if e.id == 0 then STOP
      else if e.id >= end || e.id < last then FAIL
      else Outcome([e], true).Before(LoadEntries(count, entries, x + 1, e.id, end))
  }

  /** The bound handed to the child at x: the next record's start, unchecked, or the node's own. */
  function LookAhead(count: int, pointers: seq<Pointer>, x: nat, end: nat): nat
    requires x + 1 < count ==> x + 1 < |pointers|
  {
    if x + 1 < count then pointers[x + 1].start else end
  }

  /** The loop over an inner node goes on to the child at x. */
  predicate Descends(count: int, pointers: seq<Pointer>, x: nat, last: nat, end: nat) {
    && x < count && x < |pointers| && (x + 1 < count ==> x + 1 < |pointers|)
    && pointers[x].start != 0 && last <= pointers[x].start < end
  }

  function LoadPointers(file: File, count: int, pointers: seq<Pointer>, x: nat, last: nat, end: nat, depth: nat): Outcome
    requires depth <= MAX_DEPTH
    decreases MAX_DEPTH + 1 - depth, 0, count - x
  {
    if x >= count then STOP
    else if x < |pointers| && pointers[x].start == 0 then STOP
    else if !Descends(count, pointers, x, last, end) then FAIL
    else
      var t := pointers[x];
      var child := Load(file, t.offset, depth + 1, t.u1, t.start, LookAhead(count, pointers, x, end));
      Outcome(child.run, true).Before(LoadPointers(file, count, pointers, x + 1, t.start, end, depth))
  }

  /** pst_build_id_ptr. A child's own failure is ignored. */
  function Load(file: File, offset: nat, depth: nat, linku1: nat, start: nat, end: nat): Outcome
    decreases MAX_DEPTH + 1 - depth, 1, 0
  {
    if depth > MAX_DEPTH || end <= start || offset !in file then FAIL
    else
      var node := file[offset];
      if node.itemCount > node.maxCount || node.backlink != linku1 then FAIL
      else
        match node.records
        case Leaf(entries) => LoadEntries(node.itemCount, entries, 0, start, end)
        case Inner(pointers) => LoadPointers(file, node.itemCount, pointers, 0, start, end, depth)
  }

  /** Nodes are read down to level 64, the root being level 0. */
  lemma {:induction false} LevelsRead(file: File, offset: nat, depth: nat, linku1: nat, start: nat, end: nat)
    ensures depth > 64 ==> Load(file, offset, depth, linku1, start, end) == FAIL
    ensures depth <= 64 && offset in file && file[offset].records.Leaf? ==>
      Load(file, offset, depth, linku1, start, end) == Load(file, offset, 0, linku1, start, end)
  {
  }

  /** The next entry ends the loop: its id is out of order, or 0. */
  predicate Refused(entries: seq<Entry>, x: nat, k: nat, last: nat, end: nat)
    requires x <= k < |entries|
  {
    entries[k].id == 0 || entries[k].id >= end || entries[k].id < if k == x then last else entries[k - 1].id
  }

  /** A leaf loads its entries up to the first that is refused, as many as it counts; it succeeds
      if it got that far, or to an id 0. */
  lemma {:induction false} EntriesLoaded(count: int, entries: seq<Entry>, x: nat, last: nat, end: nat) returns (k: nat)
    requires x <= |entries|
    ensures x <= k <= |entries| && (x < k ==> k <= count)
    ensures forall i :: x <= i < k ==> !Refused(entries, x, i, last, end)
    ensures k < |entries| && k < count ==> Refused(entries, x, k, last, end)
    ensures LoadEntries(count, entries, x, last, end)
         == Outcome(entries[x..k], k >= count || (k < |entries| && entries[k].id == 0))
    decreases count - x
  {
    if x >= count || x == |entries| || Refused(entries, x, x, last, end) {
      k := x;
    } else {
      k := EntriesLoaded(count, entries, x + 1, entries[x].id, end);
      assert entries[x..k] == [entries[x]] + entries[x + 1..k];
      forall i | x <= i < k ensures !Refused(entries, x, i, last, end) {
        assert i > x ==> !Refused(entries, x + 1, i, entries[x].id, end);
      }
    }
  }

  /** A node that is not where the walk may be, or that is not the one linked to, is not read. */
  lemma {:induction false} NodeIsChecked(file: File, offset: nat, depth: nat, linku1: nat, start: nat, end: nat)
    requires || depth > 64 || start >= end || offset !in file
             || file[offset].itemCount > file[offset].maxCount || file[offset].backlink != linku1
    ensures Load(file, offset, depth, linku1, start, end) == FAIL
  {
  }

  /** What the first children of an inner node append. */
  function Runs(file: File, count: int, pointers: seq<Pointer>, x: nat, k: nat, end: nat, depth: nat): seq<Entry>
    requires x <= k <= |pointers| && depth <= 64
    decreases k - x
  {
    if x == k then []
    else
      var next := if x + 1 < count && x + 1 < |pointers| then pointers[x + 1].start else end;
      Load(file, pointers[x].offset, depth + 1, pointers[x].u1, pointers[x].start, next).run
      + Runs(file, count, pointers, x + 1, k, end, depth)
  }

  /** The next pointer ends the loop: its start is out of order, or 0, or the record behind it,
      which bounds it, is missing. */
  predicate PointerRefused(count: int, pointers: seq<Pointer>, x: nat, k: nat, last: nat, end: nat)
    requires x <= k < |pointers|
  {
    || pointers[k].start == 0 || pointers[k].start >= end
    || pointers[k].start < (if k == x then last else pointers[k - 1].start)
    || |pointers| <= k + 1 < count
  }

  /** An inner node loads its children up to the first pointer that is refused, whether or not the
      children fail. */
  lemma {:induction false} ChildrenLoaded(file: File, count: int, pointers: seq<Pointer>, x: nat, last: nat, end: nat,
                                          depth: nat)
    returns (k: nat)
    requires x <= |pointers| && depth <= 64
    ensures x <= k <= |pointers| && (x < k ==> k <= count)
    ensures forall i :: x <= i < k ==> !PointerRefused(count, pointers, x, i, last, end)
    ensures k < |pointers| && k < count ==> PointerRefused(count, pointers, x, k, last, end)
    ensures LoadPointers(file, count, pointers, x, last, end, depth)
         == Outcome(Runs(file, count, pointers, x, k, end, depth),
                    k >= count || (k < |pointers| && pointers[k].start == 0))
    decreases count - x
  {
    if x >= count || x == |pointers| || PointerRefused(count, pointers, x, x, last, end) {
      k := x;
    } else {
      k := ChildrenLoaded(file, count, pointers, x + 1, pointers[x].start, end, depth);
      forall i | x <= i < k ensures !PointerRefused(count, pointers, x, i, last, end) {
        assert i > x ==> !PointerRefused(count, pointers, x + 1, i, pointers[x].start, end);
      }
    }
  }

  // ---------- order ----------

  /** Ids that never fall, from lo inclusive to hi exclusive. */
  predicate Ascending(run: seq<Entry>, lo: nat, hi: nat) {
    && (forall i :: 0 <= i < |run| ==> lo <= run[i].id < hi && run[i].id != 0)
    && (forall i, j :: 0 <= i < j < |run| ==> run[i].id <= run[j].id)
  }

  lemma {:induction false} AscendingAppend(a: seq<Entry>, b: seq<Entry>, lo: nat, mid: nat, hi: nat)
    requires Ascending(a, lo, mid) && Ascending(b, mid, hi) && lo <= mid <= hi
    ensures Ascending(a + b, lo, hi)
  {
  }

  lemma {:induction false} AscendingCons(e: Entry, later: seq<Entry>, lo: nat, hi: nat)
    requires e.id != 0 && lo <= e.id < hi && Ascending(later, e.id, hi)
    ensures Ascending([e] + later, lo, hi)
  {
    var run := [e] + later;
    assert forall i :: 1 <= i < |run| ==> run[i] == later[i - 1];
  }

  /** No child that the walk descends to is handed a bound beyond its parent's. */
  predicate Bounded(file: File, offset: nat, depth: nat, linku1: nat, start: nat, end: nat)
    decreases MAX_DEPTH + 1 - depth, 1, 0
  {
    depth > MAX_DEPTH || end <= start || offset !in file ||
    var node := file[offset];
    node.itemCount > node.maxCount || node.backlink != linku1 || node.records.Leaf? ||
    BoundedFrom(file, node.itemCount, node.records.pointers, 0, start, end, depth)
  }

  predicate BoundedFrom(file: File, count: int, pointers: seq<Pointer>, x: nat, last: nat, end: nat, depth: nat)
    requires depth <= MAX_DEPTH
    decreases MAX_DEPTH + 1 - depth, 0, count - x
  {
    Descends(count, pointers, x, last, end) ==>
      var t, next := pointers[x], LookAhead(count, pointers, x, end);
      && next <= end
      && Bounded(file, t.offset, depth + 1, t.u1, t.start, next)
      && BoundedFrom(file, count, pointers, x + 1, t.start, end, depth)
  }

  lemma {:induction false} EntriesAscend(count: int, entries: seq<Entry>, x: nat, last: nat, end: nat)
    ensures Ascending(LoadEntries(count, entries, x, last, end).run, last, end)
    decreases count - x
  {
    if x < count && x < |entries| && entries[x].id != 0 && last <= entries[x].id < end {
      EntriesAscend(count, entries, x + 1, entries[x].id, end);
      AscendingCons(entries[x], LoadEntries(count, entries, x + 1, entries[x].id, end).run, last, end);
    }
  }

  /** Under that condition every call appends ids in order and inside its own bounds, however
      malformed the nodes are otherwise. */
  lemma {:induction false} LoadAscends(file: File, offset: nat, depth: nat, linku1: nat, start: nat, end: nat)
    requires Bounded(file, offset, depth, linku1, start, end)
    ensures Ascending(Load(file, offset, depth, linku1, start, end).run, start, end)
    decreases MAX_DEPTH + 1 - depth, 1, 0
  {
    if depth <= MAX_DEPTH && start < end && offset in file {
      var node := file[offset];
      if node.itemCount <= node.maxCount && node.backlink == linku1 {
        match node.records
        case Leaf(entries) => EntriesAscend(node.itemCount, entries, 0, start, end);
        case Inner(pointers) => PointersAscend(file, node.itemCount, pointers, 0, start, end, depth);
      }
    }
  }

  /** Everything loaded from record x on is at least that record's start. */
  lemma {:induction false} PointersAscend(file: File, count: int, pointers: seq<Pointer>, x: nat, last: nat, end: nat, depth: nat)
    requires depth <= MAX_DEPTH && BoundedFrom(file, count, pointers, x, last, end, depth)
    ensures Ascending(LoadPointers(file, count, pointers, x, last, end, depth).run,
                      if x < count && x < |pointers| && last <= pointers[x].start then pointers[x].start else last, end)
    decreases MAX_DEPTH + 1 - depth, 0, count - x
  {
    if Descends(count, pointers, x, last, end) {
      var t, next := pointers[x], LookAhead(count, pointers, x, end);
      var child := Load(file, t.offset, depth + 1, t.u1, t.start, next).run;
      var later := LoadPointers(file, count, pointers, x + 1, t.start, end, depth);
      LoadAscends(file, t.offset, depth + 1, t.u1, t.start, next);
      PointersAscend(file, count, pointers, x + 1, t.start, end, depth);
      if next >= t.start {
        AscendingAppend(child, later.run, t.start, next, end);
      }
    }
  }

  // ---------- why the condition is needed ----------

  /** The look-aheads that one inner node hands down stay within its own bound. */
  predicate LookAheadsWithin(count: int, pointers: seq<Pointer>, x: nat, last: nat, end: nat)
    decreases count - x
  {
    Descends(count, pointers, x, last, end) ==>
      && LookAhead(count, pointers, x, end) <= end
      && LookAheadsWithin(count, pointers, x + 1, pointers[x].start, end)
  }

  /** The node at `offset` is the given one and every other node is a leaf. */
  ghost predicate AboveLeaves(file: File, offset: nat, node: Node) {
    offset in file && file[offset] == node && forall o :: o in file && o != offset ==> file[o].records.Leaf?
  }

  lemma {:induction false} LeavesAreBounded(file: File, offset: nat, node: Node, x: nat, last: nat, end: nat, depth: nat)
    requires AboveLeaves(file, offset, node) && node.records.Inner? && depth <= MAX_DEPTH
    requires forall p :: p in node.records.pointers ==> p.offset != offset
    requires LookAheadsWithin(node.itemCount, node.records.pointers, x, last, end)
    ensures BoundedFrom(file, node.itemCount, node.records.pointers, x, last, end, depth)
    decreases node.itemCount - x
  {
    var pointers := node.records.pointers;
    if Descends(node.itemCount, pointers, x, last, end) {
      assert pointers[x] in pointers;
      LeavesAreBounded(file, offset, node, x + 1, pointers[x].start, end, depth);
    }
  }

  /** A look-ahead beyond the bound can let a child append an id beyond the bound. */
  lemma {:induction false} Overrun(node: Node, offset: nat, x: nat, last: nat, end: nat, depth: nat)
    returns (file: File, i: nat)
    requires node.records.Inner? && depth < MAX_DEPTH
    requires forall p :: p in node.records.pointers ==> p.offset != offset
    requires !LookAheadsWithin(node.itemCount, node.records.pointers, x, last, end)
    ensures AboveLeaves(file, offset, node)
    ensures var run := LoadPointers(file, node.itemCount, node.records.pointers, x, last, end, depth).run;
      i < |run| && run[i].id >= end
    decreases node.itemCount - x
  {
    var count, pointers := node.itemCount, node.records.pointers;
    var t, next := pointers[x], LookAhead(count, pointers, x, end);
    assert t in pointers;
    if next > end {
      var stray := Entry(end, 0, 0, 0, 0);
      file := map[offset := node, t.offset := Node(1, 1, t.u1, Leaf([stray]))];
      var child := Load(file, t.offset, depth + 1, t.u1, t.start, next).run;
      assert child == LoadEntries(1, [stray], 0, t.start, next).run;
      assert child[0] == stray;
      var run := LoadPointers(file, count, pointers, x, last, end, depth).run;
      i := 0;
      assert 0 < |run| && run[0] == stray;
    } else {
      file, i := Overrun(node, offset, x + 1, t.start, end, depth);
      var child := Load(file, t.offset, depth + 1, t.u1, t.start, next).run;
      var later := LoadPointers(file, count, pointers, x + 1, t.start, end, depth).run;
      var run := LoadPointers(file, count, pointers, x, last, end, depth).run;
      assert run == child + later && run[|child| + i] == later[i];
      i := |child| + i;
    }
  }

  /** For one inner node the condition is exact: whatever leaves lie below it, what it appends
      is in order and in bounds, if and only if its look-aheads stay within its bound. */
  lemma {:induction false} LookAheadDecides(node: Node, offset: nat, start: nat, end: nat, depth: nat)
    requires node.records.Inner? && node.itemCount <= node.maxCount && start < end && depth < MAX_DEPTH
    requires forall p :: p in node.records.pointers ==> p.offset != offset
    ensures LookAheadsWithin(node.itemCount, node.records.pointers, 0, start, end) <==>
      forall file :: AboveLeaves(file, offset, node) ==>
        Ascending(Load(file, offset, depth, node.backlink, start, end).run, start, end)
  {
    if LookAheadsWithin(node.itemCount, node.records.pointers, 0, start, end) {
      forall file | AboveLeaves(file, offset, node)
        ensures Ascending(Load(file, offset, depth, node.backlink, start, end).run, start, end)
      {
        LeavesAreBounded(file, offset, node, 0, start, end, depth);
        LoadAscends(file, offset, depth, node.backlink, start, end);
      }
    } else {
      var file, i := Overrun(node, offset, 0, start, end, depth);
      var run := Load(file, offset, depth, node.backlink, start, end).run;
      assert run[i].id >= end;
      assert !Ascending(run, start, end);
    }
  }

  // ---------- what a well-formed tree loads ----------

  /** A B-tree of entries, independent of how the file stores it. */
  datatype Tree = Entries(entries: seq<Entry>) | Children(subtrees: seq<Tree>)

  function Flatten(t: Tree): seq<Entry>
    decreases t, 1
  {
    match t
    case Entries(entries) => entries
    case Children(subtrees) => FlattenAll(subtrees)
  }

  function FlattenAll(ts: seq<Tree>): seq<Entry>
    decreases ts, 0
  {
    if ts == [] then [] else Flatten(ts[0]) + FlattenAll(ts[1..])
  }

  /** The file stores tree t at the offset, as section 2.2.2.7.7 of [MS-PST] has it: backlinks
      match, ids do not fall, and every child's ids lie between its own start and the next. */
  predicate Stores(file: File, offset: nat, depth: nat, linku1: nat, start: nat, end: nat, t: Tree)
    decreases t, 1
  {
    && depth <= MAX_DEPTH && start < end && offset in file
    && var node := file[offset];
    && node.itemCount <= node.maxCount && node.backlink == linku1
    && match t
       case Entries(entries) =>
         && node.records.Leaf? && node.itemCount == |entries| && entries <= node.records.entries
         && Ascending(entries, start, end)
       case Children(subtrees) =>
         && node.records.Inner? && node.itemCount == |subtrees| <= |node.records.pointers|
         && StoresFrom(file, node.records.pointers[..|subtrees|], 0, start, end, depth, subtrees)
  }

  predicate StoresFrom(file: File, pointers: seq<Pointer>, x: nat, last: nat, end: nat, depth: nat, ts: seq<Tree>)
    requires depth <= MAX_DEPTH
    decreases ts, 0
  {
    x + |ts| == |pointers| &&
    (ts != [] ==>
      var t := pointers[x];
      && t.start != 0 && last <= t.start < end
      && Stores(file, t.offset, depth + 1, t.u1, t.start, if |ts| > 1 then pointers[x + 1].start else end, ts[0])
      && StoresFrom(file, pointers, x + 1, t.start, end, depth, ts[1..]))
  }

  lemma {:induction false} AllEntriesLoad(count: int, entries: seq<Entry>, x: nat, last: nat, end: nat)
    requires x <= count <= |entries| && Ascending(entries[x..count], last, end)
    ensures LoadEntries(count, entries, x, last, end) == Outcome(entries[x..count], true)
    decreases count - x
  {
    if x < count {
      var run := entries[x..count];
      assert run[0] == entries[x] && run[1..] == entries[x + 1..count];
      assert Ascending(run[1..], run[0].id, end);
      AllEntriesLoad(count, entries, x + 1, entries[x].id, end);
    }
  }

  /** Loading a stored tree appends all its entries in order, and succeeds. */
  lemma {:induction false} StoredTreeLoads(file: File, offset: nat, depth: nat, linku1: nat, start: nat, end: nat, t: Tree)
    requires Stores(file, offset, depth, linku1, start, end, t)
    ensures Load(file, offset, depth, linku1, start, end) == Outcome(Flatten(t), true)
    ensures Bounded(file, offset, depth, linku1, start, end)
    decreases t, 1
  {
    var node := file[offset];
    match t
    case Entries(entries) =>
      assert node.records.entries[0..node.itemCount] == entries;
      AllEntriesLoad(node.itemCount, node.records.entries, 0, start, end);
    case Children(subtrees) =>
      StoredChildrenLoad(file, node.itemCount, node.records.pointers, 0, start, end, depth, subtrees);
  }

  lemma {:induction false} StoredChildrenLoad(file: File, count: int, pointers: seq<Pointer>, x: nat, last: nat, end: nat,
                                              depth: nat, ts: seq<Tree>)
    requires depth <= MAX_DEPTH && x <= count <= |pointers|
    requires StoresFrom(file, pointers[..count], x, last, end, depth, ts)
    ensures LoadPointers(file, count, pointers, x, last, end, depth) == Outcome(FlattenAll(ts), true)
    ensures BoundedFrom(file, count, pointers, x, last, end, depth)
    decreases ts, 0
  {
    if ts != [] {
      var t := pointers[x];
      StoredTreeLoads(file, t.offset, depth + 1, t.u1, t.start, LookAhead(count, pointers, x, end), ts[0]);
      StoredChildrenLoad(file, count, pointers, x + 1, t.start, end, depth, ts[1..]);
    }
  }

  // ---------- the table ----------

  /** One round of the loop over an inner node. */
  lemma {:induction false} ChildStep(file: File, count: int, pointers: seq<Pointer>, x: nat, last: nat, end: nat,
                                     depth: nat, done: Outcome) returns (done': Outcome)
    requires depth <= MAX_DEPTH && Descends(count, pointers, x, last, end) && done.ok
    ensures var t := pointers[x];
      && done'.run == done.run + Load(file, t.offset, depth + 1, t.u1, t.start, LookAhead(count, pointers, x, end)).run
      && done'.ok
      && done'.Before(LoadPointers(file, count, pointers, x + 1, t.start, end, depth))
         == done.Before(LoadPointers(file, count, pointers, x, last, end, depth))
  {
    var t := pointers[x];
    var child := Load(file, t.offset, depth + 1, t.u1, t.start, LookAhead(count, pointers, x, end));
    BeforeAssociates(done, Outcome(child.run, true), LoadPointers(file, count, pointers, x + 1, t.start, end, depth));
    done' := done.Before(Outcome(child.run, true));
  }

  class IndexTable {
    var table: array<Entry>
    var count: nat

    constructor ()
      ensures Valid() && Contents() == [] && fresh(table)
    {
      table := new Entry[0];
      count := 0;
    }

    ghost predicate Valid()
      reads this
    {
      count <= table.Length
    }

    ghost function Contents(): (s: seq<Entry>)
      requires Valid()
      reads this, table
      ensures |s| == count
    {
      table[..count]
    }

    /** The capacity grows by half and 16 when it is used up. */
    method Add(e: Entry)
      requires Valid()
      modifies this, table
      ensures Valid() && Contents() == old(Contents()) + [e]
      ensures table == old(table) || fresh(table)
    {
      if count == table.Length {
        var larger := new Entry[table.Length + table.Length / 2 + 16];
        forall i | 0 <= i < count { larger[i] := table[i]; }
        table := larger;
      }
      table[count] := e;
      count := count + 1;
    }

    method BuildIdPtr(file: File, offset: nat, depth: nat, linku1: nat, start: nat, end: nat) returns (rc: int)
      requires Valid()
      modifies this, table
      ensures Valid() && (table == old(table) || fresh(table))
      ensures var outcome := Load(file, offset, depth, linku1, start, end);
        Contents() == old(Contents()) + outcome.run && rc == if outcome.ok then 0 else -1
      decreases MAX_DEPTH + 1 - depth, 1
    {
      if depth > MAX_DEPTH {
        return -1;
      }
      if end <= start {
        return -1;
      }
      if offset !in file {
        return -1;
      }
      var node := file[offset];
      if node.itemCount > node.maxCount {
        return -1;
      }
      if node.backlink != linku1 {
        return -1;
      }
      match node.records
      case Leaf(entries) => rc := AddEntries(node.itemCount, entries, start, end);
      case Inner(pointers) => rc := AddChildren(file, node.itemCount, pointers, start, end, depth);
    }

    /** The loop over a leaf. */
    method AddEntries(itemCount: int, entries: seq<Entry>, start: nat, end: nat) returns (rc: int)
      requires Valid()
      modifies this, table
      ensures Valid() && (table == old(table) || fresh(table))
      ensures var outcome := LoadEntries(itemCount, entries, 0, start, end);
        Contents() == old(Contents()) + outcome.run && rc == if outcome.ok then 0 else -1
    {
      var x: nat, last := 0, start;
      ghost var done := STOP;
      ghost var whole := LoadEntries(itemCount, entries, 0, start, end);
      while x < itemCount
        invariant Valid() && (table == old(table) || fresh(table))
        invariant Contents() == old(Contents()) + done.run && done.ok
        invariant whole == done.Before(LoadEntries(itemCount, entries, x, last, end))
        decreases itemCount - x
      {
        ghost var later := LoadEntries(itemCount, entries, x + 1, if x < |entries| then entries[x].id else 0, end);
        BeforeAssociates(done, if x < |entries| then Outcome([entries[x]], true) else STOP, later);
        if x >= |entries| {
          return -1;
        }
        var e := entries[x];
        x := x + 1;
        if e.id == 0 {
          return 0;
        }
        if e.id >= end || e.id < last {
          return -1;
        }
        last := e.id;
        Add(e);
        done := done.Before(Outcome([e], true));
      }
      BeforeAssociates(done, STOP, STOP);
      return 0;
    }

    /** Decodes and checks the pointer at x, and the bound for its child. */
    method ReadPointer(file: File, itemCount: int, pointers: seq<Pointer>, x: nat, last: nat, end: nat, ghost depth: nat)
      returns (found: bool, stop: bool, t: Pointer, next: nat)
      requires x < itemCount && depth <= MAX_DEPTH
      ensures found <==> Descends(itemCount, pointers, x, last, end)
      ensures found ==> t == pointers[x] && next == LookAhead(itemCount, pointers, x, end)
      ensures !found ==> LoadPointers(file, itemCount, pointers, x, last, end, depth) == if stop then STOP else FAIL
    {
      found, stop, t, next := false, false, Pointer(0, 0, 0), end;
      if x >= |pointers| {
        return;
      }
      t := pointers[x];
      if t.start == 0 {
        stop := true;
        return;
      }
      if x + 1 < itemCount {
        if x + 1 >= |pointers| {
          return;
        }
        next := pointers[x + 1].start;
      }
      if t.start >= end || t.start < last {
        return;
      }
      found := true;
    }

    /** The loop over an inner node. */
    method AddChildren(file: File, itemCount: int, pointers: seq<Pointer>, start: nat, end: nat, depth: nat) returns (rc: int)
      requires Valid() && depth <= MAX_DEPTH
      modifies this, table
      ensures Valid() && (table == old(table) || fresh(table))
      ensures var outcome := LoadPointers(file, itemCount, pointers, 0, start, end, depth);
        Contents() == old(Contents()) + outcome.run && rc == if outcome.ok then 0 else -1
      decreases MAX_DEPTH + 1 - depth, 0
    {
      var x: nat, last := 0, start;
      ghost var done := STOP;
      ghost var whole := LoadPointers(file, itemCount, pointers, 0, start, end, depth);
      while x < itemCount
        invariant Valid() && (table == old(table) || fresh(table))
        invariant Contents() == old(Contents()) + done.run && done.ok
        invariant whole == done.Before(LoadPointers(file, itemCount, pointers, x, last, end, depth))
        decreases itemCount - x
      {
        BeforeAssociates(done, STOP, STOP);
        var found, stop, t, next := ReadPointer(file, itemCount, pointers, x, last, end, depth);
        if !found {
          return if stop then 0 else -1;
        }
        ghost var child := Load(file, t.offset, depth + 1, t.u1, t.start, next).run;
        Associates(old(Contents()), done.run, child);
        done := ChildStep(file, itemCount, pointers, x, last, end, depth, done);
        x, last := x + 1, t.start;
        var ignored := BuildIdPtr(file, t.offset, depth + 1, t.u1, t.start, next);
      }
      BeforeAssociates(done, STOP, STOP);
      return 0;
    }

    /** The first half of pst_load_index. */
    method LoadIndex(file: File, root: nat, backlink: nat)
      requires Valid() && Contents() == []
      modifies this, table
      ensures Valid() && Contents() == Load(file, root, 0, backlink, 0, UINT64_MAX).run
      ensures Bounded(file, root, 0, backlink, 0, UINT64_MAX) ==> Ascending(Contents(), 0, UINT64_MAX)
      ensures forall t :: Stores(file, root, 0, backlink, 0, 0xffff_ffff_ffff_ffff, t) ==>
        Contents() == Flatten(t) && Ascending(Contents(), 0, 0xffff_ffff_ffff_ffff)
    {
      var ignored := BuildIdPtr(file, root, 0, backlink, 0, UINT64_MAX);
      assert [] + Load(file, root, 0, backlink, 0, UINT64_MAX).run == Contents();
      if Bounded(file, root, 0, backlink, 0, UINT64_MAX) {
        LoadAscends(file, root, 0, backlink, 0, UINT64_MAX);
      }
      forall t | Stores(file, root, 0, backlink, 0, UINT64_MAX, t)
        ensures Contents() == Flatten(t) && Ascending(Contents(), 0, UINT64_MAX)
      {
        StoredTreeLoads(file, root, 0, backlink, 0, UINT64_MAX, t);
      }
    }

    /** pst_getID, with bsearch written out: a found entry always has the id without its low
        bit, and in a table in order one is found exactly when there is one. */
    method GetId(id: nat) returns (found: bool, k: nat)
      requires Valid()
      ensures found ==> id != 0 && k < count && Contents()[k].id == id - id % 2
      ensures Ascending(Contents(), 0, UINT64_MAX) ==>
        (found <==> id != 0 && exists i :: 0 <= i < count && Contents()[i].id == id - id % 2)
    {
      found, k := false, 0;
      if id == 0 {
        return;
      }
      var key := id - id % 2;
      if count == 0 {
        return;
      }
      var lo, hi := 0, count;
      while lo < hi
        invariant 0 <= lo <= hi <= count
        invariant Ascending(Contents(), 0, UINT64_MAX) ==>
          forall i :: 0 <= i < count && !(lo <= i < hi) ==> table[i].id != key
      {
        var mid := (lo + hi) / 2;
        if table[mid].id == key {
          return true, mid;
        } else if table[mid].id < key {
          lo := mid + 1;
        } else {
          hi := mid;
        }
      }
    }
  }
}
