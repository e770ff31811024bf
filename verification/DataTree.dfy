/** Assembly of block data (src/libpst.c): following a block id through nested tables of ids,
    section 2.2.2.8.3.2 of [MS-PST], and sending the decrypted leaves to a destination. */
module DataTree {
  import opened Bytes
  import Cipher
  import opened Common
  import opened Holder

  const TABLE_OF_TABLES := 0x0201
  const TABLE_OF_LEAVES := 0x0101

  /** What the reader sees of an open file: the raw bytes behind each entry of the block index,
      the kind of encryption, and whether ids take 8 or 4 bytes. */
  datatype Pst = Pst(blocks: map<nat, seq<byte>>, encryption: byte, wide: bool)

  /** Blocks are indexed under their id without its low bit; id 0 names nothing. */
  function Key(id: nat): nat { id - id % 2 }

  predicate Known(pst: Pst, id: nat) { id != 0 && Key(id) in pst.blocks }

  /** pst_ff_getIDblock: empty when the id is unknown. */
  function RawBlock(pst: Pst, id: nat): seq<byte> {
    if Known(pst, id) then pst.blocks[Key(id)] else []
  }

  /** Bit 1 of an id marks blocks of ids, which are stored in clear. */
  predicate IsInternal(id: nat) { id / 2 % 2 == 1 }

  /** pst_ff_getIDblock_dec. */
  function DecryptedBlock(pst: Pst, id: nat): seq<byte> {
    if pst.encryption != 0 && !IsInternal(id) then Cipher.Decrypted(id, RawBlock(pst, id), pst.encryption)
    else RawBlock(pst, id)
  }

  function IdSize(pst: Pst): nat { if pst.wide then 8 else 4 }

  /** The ids in a table: as many as its header counts, as far as they lie inside the block. */
  function IdsFrom(pst: Pst, block: seq<byte>, at: nat, count: nat): seq<nat>
    decreases count
  {
    if count == 0 || at + IdSize(pst) > |block| then []
    else [ReadLE(block, at, IdSize(pst))] + IdsFrom(pst, block, at + IdSize(pst), count - 1)
  }

  function TableIds(pst: Pst, block: seq<byte>): seq<nat>
    requires 8 <= |block|
  {
    IdsFrom(pst, block, 8, ReadLE(block, 2, 2))
  }

  function TableType(block: seq<byte>): nat
    requires 8 <= |block|
  {
    ReadLE(block, 0, 2)
  }

  /** A block behind an internal id that is not a table after all is taken as data. */
  function Untabled(pst: Pst, id: nat): seq<byte> {
    if pst.encryption != 0 then Cipher.Decrypted(id, RawBlock(pst, id), pst.encryption) else RawBlock(pst, id)
  }

  // ---------- what one traversal does ----------

  /** A traversal appends data, and where it fails on a missing block it makes the running
      size start again from zero. */
  datatype Event = Append(data: seq<byte>) | Reset

  function LeafEvents(pst: Pst, ids: seq<nat>): seq<Event> {
    if ids == [] then []
    else if DecryptedBlock(pst, ids[0]) == [] then [Reset]
    else [Append(DecryptedBlock(pst, ids[0]))] + LeafEvents(pst, ids[1..])
  }

  function Events(pst: Pst, id: nat, depth: nat): seq<Event>
    decreases MAX_DEPTH + 1 - depth, 1, 0
  {
    if depth > MAX_DEPTH then []
    else
      var block := RawBlock(pst, id);
      if block == [] then [Reset]
      else if |block| < 8 then []
      else if TableType(block) == TABLE_OF_TABLES then EventsOfAll(pst, TableIds(pst, block), depth)
      else if TableType(block) == TABLE_OF_LEAVES then LeafEvents(pst, TableIds(pst, block))
      else [Append(Untabled(pst, id))]
  }

  function EventsOfAll(pst: Pst, ids: seq<nat>, depth: nat): seq<Event>
    requires depth <= MAX_DEPTH
    decreases MAX_DEPTH + 1 - depth, 0, |ids|
  {
    if ids == [] then [] else Events(pst, ids[0], depth + 1) + EventsOfAll(pst, ids[1..], depth)
  }

  /** Everything appended so far, split at the last reset. */
  datatype Progress = Progress(before: seq<byte>, kept: seq<byte>) {
    function Sent(): seq<byte> { before + kept }

    function After(e: Event): Progress {
      match e
      case Append(data) => Progress(before, kept + data)
      case Reset => Progress(before + kept, [])
    }

    function AfterAll(es: seq<Event>): Progress
      decreases |es|
    {
      if es == [] then this else After(es[0]).AfterAll(es[1..])
    }
  }

  lemma {:induction false} AfterAllSplits(p: Progress, a: seq<Event>, b: seq<Event>)
    ensures p.AfterAll(a + b) == p.AfterAll(a).AfterAll(b)
    decreases |a|
  {
    if a == [] {
      assert a + b == b;
    } else {
      AfterAllSplits(p.After(a[0]), a[1..], b);
      assert (a + b)[1..] == a[1..] + b;
    }
  }

  /** The traversal of the data behind an index entry. */
  function Traversal(pst: Pst, id: nat): seq<Event> {
    if IsInternal(id) then Events(pst, id, 0) else [Append(DecryptedBlock(pst, id))]
  }

  /** What the traversal has sent when it ends. */
  function Delivered(pst: Pst, id: nat): Progress {
    Progress([], []).AfterAll(Traversal(pst, id))
  }

  // ---------- when a traversal resets ----------

  predicate LeavesPresent(pst: Pst, ids: seq<nat>) { forall i :: 0 <= i < |ids| ==> RawBlock(pst, ids[i]) != [] }

  /** Every block that the traversal asks for exists. */
  predicate Present(pst: Pst, id: nat, depth: nat)
    decreases MAX_DEPTH + 1 - depth, 1, 0
  {
    depth > MAX_DEPTH ||
    var block := RawBlock(pst, id);
    && block != []
    && (8 <= |block| ==>
      && (TableType(block) == TABLE_OF_TABLES ==> AllPresent(pst, TableIds(pst, block), depth))
      && (TableType(block) == TABLE_OF_LEAVES ==> LeavesPresent(pst, TableIds(pst, block))))
  }

  predicate AllPresent(pst: Pst, ids: seq<nat>, depth: nat)
    requires depth <= MAX_DEPTH
    decreases MAX_DEPTH + 1 - depth, 0, |ids|
  {
    ids == [] || (Present(pst, ids[0], depth + 1) && AllPresent(pst, ids[1..], depth))
  }

  lemma {:induction false} LeavesResetIffMissing(pst: Pst, ids: seq<nat>)
    ensures Reset in LeafEvents(pst, ids) <==> !LeavesPresent(pst, ids)
  {
    if ids != [] && RawBlock(pst, ids[0]) != [] {
      LeavesResetIffMissing(pst, ids[1..]);
      assert ids == [ids[0]] + ids[1..];
    }
  }

  /** A traversal resets the running size exactly when it meets a block that does not exist. */
  lemma {:induction false} ResetIffMissing(pst: Pst, id: nat, depth: nat)
    ensures Reset in Events(pst, id, depth) <==> !Present(pst, id, depth)
    decreases MAX_DEPTH + 1 - depth, 1, 0
  {
    var block := RawBlock(pst, id);
    if depth <= MAX_DEPTH && 8 <= |block| {
      if TableType(block) == TABLE_OF_TABLES {
        AllResetIffMissing(pst, TableIds(pst, block), depth);
      } else if TableType(block) == TABLE_OF_LEAVES {
        LeavesResetIffMissing(pst, TableIds(pst, block));
      }
    }
  }

  lemma {:induction false} AllResetIffMissing(pst: Pst, ids: seq<nat>, depth: nat)
    requires depth <= MAX_DEPTH
    ensures Reset in EventsOfAll(pst, ids, depth) <==> !AllPresent(pst, ids, depth)
    decreases MAX_DEPTH + 1 - depth, 0, |ids|
  {
    if ids != [] {
      ResetIffMissing(pst, ids[0], depth + 1);
      AllResetIffMissing(pst, ids[1..], depth);
    }
  }

  lemma {:induction false} WithoutReset(p: Progress, es: seq<Event>)
    requires Reset !in es
    ensures p.AfterAll(es).before == p.before
    decreases |es|
  {
    if es != [] {
      assert es[0] in es && forall e :: e in es[1..] ==> e in es;
      WithoutReset(p.After(es[0]), es[1..]);
    }
  }

  /** If no block is missing, nothing that was sent stops counting, however deep the tables. */
  lemma {:induction false} PresentDataCounts(pst: Pst, id: nat)
    requires IsInternal(id) ==> Present(pst, id, 0)
    ensures Delivered(pst, id).before == [] && Delivered(pst, id).Sent() == Delivered(pst, id).kept
  {
    if IsInternal(id) { ResetIffMissing(pst, id, 0); }
    WithoutReset(Progress([], []), Traversal(pst, id));
  }

  function Concat(parts: seq<seq<byte>>): seq<byte> {
    if parts == [] then [] else parts[0] + Concat(parts[1..])
  }

  /** The first missing leaf of a table ends the traversal of that table. What was sent before
      stays in a file, but no longer counts. */
  lemma {:induction false} MissingLeafLoses(pst: Pst, ids: seq<nat>, k: nat, p: Progress)
    requires k < |ids| && RawBlock(pst, ids[k]) == []
    requires forall i :: 0 <= i < k ==> RawBlock(pst, ids[i]) != []
    ensures p.AfterAll(LeafEvents(pst, ids))
         == Progress(p.Sent() + Concat(seq(k, i requires 0 <= i < k => DecryptedBlock(pst, ids[i]))), [])
  {
    var parts := seq(k, i requires 0 <= i < k => DecryptedBlock(pst, ids[i]));
    if k == 0 {
      AfterAllSplits(p, [Reset], []);
      assert p.Sent() + [] == p.Sent();
    } else {
      var p' := p.After(Append(parts[0]));
      MissingLeafLoses(pst, ids[1..], k - 1, p');
      assert parts[1..] == seq(k - 1, i requires 0 <= i < k - 1 => DecryptedBlock(pst, ids[1..][i]));
      assert p'.Sent() == p.Sent() + parts[0];
      assert p'.Sent() + Concat(parts[1..]) == p.Sent() + Concat(parts);
    }
  }

  // ---------- the traversal itself ----------

  ghost function ProgressOf(h: PstHolder): Progress
    reads h
  {
    Progress(h.before, h.kept)
  }

  /** The table loop takes one id off the table. */
  lemma {:induction false} TableStep(pst: Pst, block: seq<byte>, at: nat, count: nat, depth: nat, p: Progress)
    requires count > 0 && at + IdSize(pst) <= |block| && depth <= MAX_DEPTH
    ensures p.AfterAll(EventsOfAll(pst, IdsFrom(pst, block, at, count), depth))
         == p.AfterAll(Events(pst, ReadLE(block, at, IdSize(pst)), depth + 1))
             .AfterAll(EventsOfAll(pst, IdsFrom(pst, block, at + IdSize(pst), count - 1), depth))
  {
    var id, rest := ReadLE(block, at, IdSize(pst)), IdsFrom(pst, block, at + IdSize(pst), count - 1);
    var ids := IdsFrom(pst, block, at, count);
    assert ids[0] == id && ids[1..] == rest;
    AfterAllSplits(p, Events(pst, id, depth + 1), EventsOfAll(pst, rest, depth));
  }

  lemma {:induction false} LeafStep(pst: Pst, block: seq<byte>, at: nat, count: nat, p: Progress)
    requires count > 0 && at + IdSize(pst) <= |block|
    ensures var data := DecryptedBlock(pst, ReadLE(block, at, IdSize(pst)));
      p.AfterAll(LeafEvents(pst, IdsFrom(pst, block, at, count)))
      == if data == [] then p.After(Reset)
         else p.After(Append(data)).AfterAll(LeafEvents(pst, IdsFrom(pst, block, at + IdSize(pst), count - 1)))
  {
    var id, rest := ReadLE(block, at, IdSize(pst)), IdsFrom(pst, block, at + IdSize(pst), count - 1);
    var ids := IdsFrom(pst, block, at, count);
    assert ids[0] == id && ids[1..] == rest;
    AfterAllSplits(p, [Reset], []);
    var data := DecryptedBlock(pst, id);
    if data != [] {
      AfterAllSplits(p, [Append(data)], LeafEvents(pst, rest));
    }
  }

  /** pst_ff_compile_ID: sends everything behind an internal id to the holder. */
  method CompileId(pst: Pst, id: nat, h: PstHolder, size: nat, depth: nat) returns (size': nat)
    requires h.Valid() && h.Sized(size)
    modifies h, h.fp
    ensures h.Valid() && h.Sized(size')
    ensures ProgressOf(h) == old(ProgressOf(h)).AfterAll(Events(pst, id, depth))
    decreases MAX_DEPTH + 1 - depth, 1
  {
    if depth > MAX_DEPTH {
      return size;
    }
    var block := RawBlock(pst, id);
    if |block| == 0 {
      h.StartOver();
      AfterAllSplits(old(ProgressOf(h)), [Reset], []);
      return 0;
    }
    if |block| < 8 {
      return size;
    }
    var table, count := TableType(block), ReadLE(block, 2, 2);
    if table == TABLE_OF_TABLES {
      size' := CompileTables(pst, block, count, h, size, depth);
    } else if table == TABLE_OF_LEAVES {
      size' := CompileLeaves(pst, block, count, h, size);
    } else {
      size' := h.Append(size, Untabled(pst, id));
      AfterAllSplits(old(ProgressOf(h)), [Append(Untabled(pst, id))], []);
    }
  }

  /** The progress once the rest of a table, from `at` on, has been gone through. */
  ghost function AfterTables(pst: Pst, block: seq<byte>, at: nat, count: nat, depth: nat, p: Progress): Progress
    requires depth <= MAX_DEPTH
  {
    p.AfterAll(EventsOfAll(pst, IdsFrom(pst, block, at, count), depth))
  }

  lemma {:induction false} NoTablesLeft(pst: Pst, block: seq<byte>, at: nat, count: nat, depth: nat, p: Progress)
    requires (count == 0 || at + IdSize(pst) > |block|) && depth <= MAX_DEPTH
    ensures AfterTables(pst, block, at, count, depth, p) == p
  {
  }

  /** The loop over a table of tables. */
  method CompileTables(pst: Pst, block: seq<byte>, count: nat, h: PstHolder, size: nat, depth: nat) returns (size': nat)
    requires 8 <= |block| && depth <= MAX_DEPTH
    requires h.Valid() && h.Sized(size)
    modifies h, h.fp
    ensures h.Valid() && h.Sized(size')
    ensures ProgressOf(h) == AfterTables(pst, block, 8, count, depth, old(ProgressOf(h)))
    decreases MAX_DEPTH + 1 - depth, 0, count + 1
  {
    var at: nat, y: nat := 8, 0;
    size' := size;
    ghost var goal := AfterTables(pst, block, at, count, depth, ProgressOf(h));
    while y < count && at + IdSize(pst) <= |block|
      invariant y <= count
      invariant h.Valid() && h.Sized(size')
      invariant AfterTables(pst, block, at, count - y, depth, ProgressOf(h)) == goal
      decreases count - y
    {
      size' := CompileEntry(pst, block, at, count - y, h, size', depth);
      at := at + IdSize(pst);
      y := y + 1;
    }
    NoTablesLeft(pst, block, at, count - y, depth, ProgressOf(h));
  }

  /** One round of that loop. */
  method CompileEntry(pst: Pst, block: seq<byte>, at: nat, count: nat, h: PstHolder, size: nat, depth: nat)
    returns (size': nat)
    requires count > 0 && at + IdSize(pst) <= |block| && depth <= MAX_DEPTH
    requires h.Valid() && h.Sized(size)
    modifies h, h.fp
    ensures h.Valid() && h.Sized(size')
    ensures AfterTables(pst, block, at + IdSize(pst), count - 1, depth, ProgressOf(h))
         == AfterTables(pst, block, at, count, depth, old(ProgressOf(h)))
    decreases MAX_DEPTH + 1 - depth, 0, 0
  {
    TableStep(pst, block, at, count, depth, ProgressOf(h));
    size' := CompileId(pst, ReadLE(block, at, IdSize(pst)), h, size, depth + 1);
  }

  ghost function AfterLeaves(pst: Pst, block: seq<byte>, at: nat, count: nat, p: Progress): Progress {
    p.AfterAll(LeafEvents(pst, IdsFrom(pst, block, at, count)))
  }

  lemma {:induction false} NoLeavesLeft(pst: Pst, block: seq<byte>, at: nat, count: nat, p: Progress)
    requires count == 0 || at + IdSize(pst) > |block|
    ensures AfterLeaves(pst, block, at, count, p) == p
  {
  }

  /** The loop over a table of leaves. */
  method CompileLeaves(pst: Pst, block: seq<byte>, count: nat, h: PstHolder, size: nat) returns (size': nat)
    requires 8 <= |block|
    requires h.Valid() && h.Sized(size)
    modifies h, h.fp
    ensures h.Valid() && h.Sized(size')
    ensures ProgressOf(h) == AfterLeaves(pst, block, 8, count, old(ProgressOf(h)))
  {
    var at: nat, y: nat := 8, 0;
    size' := size;
    ghost var goal := AfterLeaves(pst, block, at, count, ProgressOf(h));
    while y < count && at + IdSize(pst) <= |block|
      invariant y <= count
      invariant h.Valid() && h.Sized(size')
      invariant AfterLeaves(pst, block, at, count - y, ProgressOf(h)) == goal
      decreases count - y
    {
      var missing;
      size', missing := CompileLeaf(pst, block, at, count - y, h, size');
      if missing {
        assert ProgressOf(h) == goal;
        return;
      }
      at := at + IdSize(pst);
      y := y + 1;
    }
    NoLeavesLeft(pst, block, at, count - y, ProgressOf(h));
  }

  /** One round of that loop, which gives up on a missing leaf. */
  method CompileLeaf(pst: Pst, block: seq<byte>, at: nat, count: nat, h: PstHolder, size: nat)
    returns (size': nat, missing: bool)
    requires count > 0 && at + IdSize(pst) <= |block|
    requires h.Valid() && h.Sized(size)
    modifies h, h.fp
    ensures h.Valid() && h.Sized(size')
    ensures AfterLeaves(pst, block, at, count, old(ProgressOf(h)))
         == if missing then ProgressOf(h) else AfterLeaves(pst, block, at + IdSize(pst), count - 1, ProgressOf(h))
  {
    LeafStep(pst, block, at, count, ProgressOf(h));
    var z := DecryptedBlock(pst, ReadLE(block, at, IdSize(pst)));
    missing := |z| == 0;
    if missing {
      h.StartOver();
      size' := 0;
    } else {
      size' := h.Append(size, z);
    }
  }

  /** pst_ff_getID2data: everything behind an index entry, into a new holder. */
  method GetId2Data(pst: Pst, id: nat, h: PstHolder) returns (size: nat)
    requires h.Valid() && h.Sized(0) && h.before == h.kept == []
    modifies h, h.fp
    ensures var p := Delivered(pst, id);
      && size == |p.kept| + (if h.Mode() == ToBase64 then |p.before| % 3 else 0)
      && (h.Mode() == ToBuffer ==> size <= |h.buffer| && h.buffer[..size] == p.kept)
      && (h.Mode() == ToFile ==> h.fp.written == h.start + p.Sent())
      && (h.Mode() == ToBase64 ==> h.fp.written == h.start + Base64File(p.Sent()))
  {
    if !IsInternal(id) {
      size := h.Append(0, DecryptedBlock(pst, id));
      AfterAllSplits(Progress([], []), [Append(DecryptedBlock(pst, id))], []);
    } else {
      size := CompileId(pst, id, h, 0, 0);
    }
    assert ProgressOf(h) == Delivered(pst, id);
    size := h.Finish(size);
  }
}
