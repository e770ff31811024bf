/** What a missing block costs (src/libpst.c, pst_ff_compile_ID): the running size starts again
    from zero, and whatever was sent before no longer counts. Here this is read off the stored
    blocks, without following the traversal. */
module LostData {
  import opened Bytes
  import Cipher
  import opened Common
  import opened DataTree

  // ---------- lists of events ----------

  function Size(e: Event): nat { if e.Append? then |e.data| else 0 }

  function Volume(es: seq<Event>): nat { if es == [] then 0 else Size(es[0]) + Volume(es[1..]) }

  /** The number of bytes appended before the last reset. */
  function LostBy(es: seq<Event>): nat {
    if Reset !in es then 0 else Size(es[0]) + LostBy(es[1..])
  }

  lemma {:induction false} LostIsBefore(p: Progress, es: seq<Event>)
    ensures |p.AfterAll(es).before| == if Reset in es then |p.Sent()| + LostBy(es) else |p.before|
    decreases |es|
  {
    if es != [] {
      assert es == [es[0]] + es[1..];
      LostIsBefore(p.After(es[0]), es[1..]);
    }
  }

  lemma {:induction false} LostBySplits(a: seq<Event>, b: seq<Event>)
    ensures Volume(a + b) == Volume(a) + Volume(b)
    ensures LostBy(a + b) == if Reset in b then Volume(a) + LostBy(b) else LostBy(a)
  {
    if a == [] {
      assert a + b == b;
    } else {
      LostBySplits(a[1..], b);
      assert (a + b)[1..] == a[1..] + b && a == [a[0]] + a[1..];
    }
  }

  // ---------- stored blocks ----------

  /** The bytes of the leaves up to the first missing one. */
  function LeafVolume(pst: Pst, ids: seq<nat>): nat {
    if ids == [] || RawBlock(pst, ids[0]) == [] then 0 else |RawBlock(pst, ids[0])| + LeafVolume(pst, ids[1..])
  }

  /** The bytes sent for what is stored behind an internal id. */
  function SentFor(pst: Pst, id: nat, depth: nat): nat
    decreases MAX_DEPTH + 1 - depth, 1, 0
  {
    var block := RawBlock(pst, id);
    if depth > MAX_DEPTH || |block| < 8 then 0
    else if TableType(block) == TABLE_OF_TABLES then SentForAll(pst, TableIds(pst, block), depth)
    else if TableType(block) == TABLE_OF_LEAVES then LeafVolume(pst, TableIds(pst, block))
    else |block|
  }

  function SentForAll(pst: Pst, ids: seq<nat>, depth: nat): nat
    requires depth <= MAX_DEPTH
    decreases MAX_DEPTH + 1 - depth, 0, |ids|
  {
    if ids == [] then 0 else SentFor(pst, ids[0], depth + 1) + SentForAll(pst, ids[1..], depth)
  }

  /** The bytes that no longer count at the end: in a table of leaves those before the first
      missing leaf, in a table of tables everything before the last table with a missing block,
      and what that one loses. */
  function LostFor(pst: Pst, id: nat, depth: nat): nat
    decreases MAX_DEPTH + 1 - depth, 1, 0
  {
    var block := RawBlock(pst, id);
    if depth > MAX_DEPTH || |block| < 8 then 0
    else if TableType(block) == TABLE_OF_TABLES then LostForAll(pst, TableIds(pst, block), depth)
    else if TableType(block) == TABLE_OF_LEAVES && !LeavesPresent(pst, TableIds(pst, block)) then
      LeafVolume(pst, TableIds(pst, block))
    else 0
  }

  function LostForAll(pst: Pst, ids: seq<nat>, depth: nat): nat
    requires depth <= MAX_DEPTH
    decreases MAX_DEPTH + 1 - depth, 0, |ids|
  {
    if ids == [] then 0
    else if AllPresent(pst, ids[1..], depth) then LostFor(pst, ids[0], depth + 1)
    else SentFor(pst, ids[0], depth + 1) + LostForAll(pst, ids[1..], depth)
  }

  lemma {:induction false} DecryptionKeepsLength(pst: Pst, id: nat)
    ensures |DecryptedBlock(pst, id)| == |RawBlock(pst, id)| == |Untabled(pst, id)|
  {
  }

  lemma {:induction false} LeavesLose(pst: Pst, ids: seq<nat>)
    ensures Volume(LeafEvents(pst, ids)) == LeafVolume(pst, ids)
    ensures LostBy(LeafEvents(pst, ids)) == if LeavesPresent(pst, ids) then 0 else LeafVolume(pst, ids)
  {
    LeavesResetIffMissing(pst, ids);
    if ids != [] {
      DecryptionKeepsLength(pst, ids[0]);
      if RawBlock(pst, ids[0]) != [] {
        LeavesLose(pst, ids[1..]);
        LeavesResetIffMissing(pst, ids[1..]);
        assert LeafEvents(pst, ids)[1..] == LeafEvents(pst, ids[1..]);
        assert ids == [ids[0]] + ids[1..];
      }
    }
  }

  lemma {:induction false} BlocksLose(pst: Pst, id: nat, depth: nat)
    ensures Volume(Events(pst, id, depth)) == SentFor(pst, id, depth)
    ensures LostBy(Events(pst, id, depth)) == LostFor(pst, id, depth)
    decreases MAX_DEPTH + 1 - depth, 1, 0
  {
    var block := RawBlock(pst, id);
    if depth <= MAX_DEPTH && 8 <= |block| {
      if TableType(block) == TABLE_OF_TABLES {
        AllBlocksLose(pst, TableIds(pst, block), depth);
      } else if TableType(block) == TABLE_OF_LEAVES {
        LeavesLose(pst, TableIds(pst, block));
      } else {
        DecryptionKeepsLength(pst, id);
      }
    }
  }

  lemma {:induction false} AllBlocksLose(pst: Pst, ids: seq<nat>, depth: nat)
    requires depth <= MAX_DEPTH
    ensures Volume(EventsOfAll(pst, ids, depth)) == SentForAll(pst, ids, depth)
    ensures LostBy(EventsOfAll(pst, ids, depth)) == LostForAll(pst, ids, depth)
    decreases MAX_DEPTH + 1 - depth, 0, |ids|
  {
    if ids != [] {
      BlocksLose(pst, ids[0], depth + 1);
      AllBlocksLose(pst, ids[1..], depth);
      AllResetIffMissing(pst, ids[1..], depth);
      LostBySplits(Events(pst, ids[0], depth + 1), EventsOfAll(pst, ids[1..], depth));
    }
  }

  // ---------- when anything is lost ----------

  /** Something is sent for what is stored behind an internal id. */
  predicate Sends(pst: Pst, id: nat, depth: nat)
    decreases MAX_DEPTH + 1 - depth, 1, 0
  {
    var block := RawBlock(pst, id);
    && depth <= MAX_DEPTH && 8 <= |block|
    && (TableType(block) == TABLE_OF_TABLES ==> SomeSends(pst, TableIds(pst, block), depth))
    && (TableType(block) == TABLE_OF_LEAVES ==> FirstPresent(pst, TableIds(pst, block)))
  }

  predicate SomeSends(pst: Pst, ids: seq<nat>, depth: nat)
    requires depth <= MAX_DEPTH
    decreases MAX_DEPTH + 1 - depth, 0, |ids|
  {
    ids != [] && (Sends(pst, ids[0], depth + 1) || SomeSends(pst, ids[1..], depth))
  }

  predicate FirstPresent(pst: Pst, ids: seq<nat>) { ids != [] && RawBlock(pst, ids[0]) != [] }

  /** A table of leaves loses data if its first leaf is present and a later one is missing; a
      table of tables if one of its tables does, or if one sends something and a block of a later
      one is missing. */
  predicate Loses(pst: Pst, id: nat, depth: nat)
    decreases MAX_DEPTH + 1 - depth, 1, 0
  {
    var block := RawBlock(pst, id);
    && depth <= MAX_DEPTH && 8 <= |block|
    && if TableType(block) == TABLE_OF_TABLES then SomeLoses(pst, TableIds(pst, block), depth)
       else
         && TableType(block) == TABLE_OF_LEAVES
         && FirstPresent(pst, TableIds(pst, block)) && !LeavesPresent(pst, TableIds(pst, block))
  }

  predicate SomeLoses(pst: Pst, ids: seq<nat>, depth: nat)
    requires depth <= MAX_DEPTH
    decreases MAX_DEPTH + 1 - depth, 0, |ids|
  {
    ids != [] &&
    (|| Loses(pst, ids[0], depth + 1)
     || SomeLoses(pst, ids[1..], depth)
     || (Sends(pst, ids[0], depth + 1) && !AllPresent(pst, ids[1..], depth)))
  }

  lemma {:induction false} SendsIffVolume(pst: Pst, id: nat, depth: nat)
    ensures Sends(pst, id, depth) <==> SentFor(pst, id, depth) > 0
    decreases MAX_DEPTH + 1 - depth, 1, 0
  {
    var block := RawBlock(pst, id);
    if depth <= MAX_DEPTH && 8 <= |block| && TableType(block) == TABLE_OF_TABLES {
      SomeSendsIffVolume(pst, TableIds(pst, block), depth);
    }
  }

  lemma {:induction false} SomeSendsIffVolume(pst: Pst, ids: seq<nat>, depth: nat)
    requires depth <= MAX_DEPTH
    ensures SomeSends(pst, ids, depth) <==> SentForAll(pst, ids, depth) > 0
    decreases MAX_DEPTH + 1 - depth, 0, |ids|
  {
    if ids != [] {
      SendsIffVolume(pst, ids[0], depth + 1);
      SomeSendsIffVolume(pst, ids[1..], depth);
    }
  }

  /** Without a missing block nothing is lost. */
  lemma {:induction false} PresentLosesNothing(pst: Pst, ids: seq<nat>, depth: nat)
    requires depth <= MAX_DEPTH && AllPresent(pst, ids, depth)
    ensures LostForAll(pst, ids, depth) == 0
    decreases MAX_DEPTH + 1 - depth, 0, |ids|
  {
    if ids != [] { PresentTableLosesNothing(pst, ids[0], depth + 1); }
  }

  lemma {:induction false} PresentTableLosesNothing(pst: Pst, id: nat, depth: nat)
    requires Present(pst, id, depth)
    ensures LostFor(pst, id, depth) == 0
    decreases MAX_DEPTH + 1 - depth, 1, 0
  {
    var block := RawBlock(pst, id);
    if depth <= MAX_DEPTH && 8 <= |block| && TableType(block) == TABLE_OF_TABLES {
      PresentLosesNothing(pst, TableIds(pst, block), depth);
    }
  }

  lemma {:induction false} LosesIffLost(pst: Pst, id: nat, depth: nat)
    ensures Loses(pst, id, depth) <==> LostFor(pst, id, depth) > 0
    decreases MAX_DEPTH + 1 - depth, 1, 0
  {
    var block := RawBlock(pst, id);
    if depth <= MAX_DEPTH && 8 <= |block| && TableType(block) == TABLE_OF_TABLES {
      SomeLosesIffLost(pst, TableIds(pst, block), depth);
    }
  }

  lemma {:induction false} SomeLosesIffLost(pst: Pst, ids: seq<nat>, depth: nat)
    requires depth <= MAX_DEPTH
    ensures SomeLoses(pst, ids, depth) <==> LostForAll(pst, ids, depth) > 0
    decreases MAX_DEPTH + 1 - depth, 0, |ids|
  {
    if ids != [] {
      LosesIffLost(pst, ids[0], depth + 1);
      SomeLosesIffLost(pst, ids[1..], depth);
      SendsIffVolume(pst, ids[0], depth + 1);
      if AllPresent(pst, ids[1..], depth) {
        PresentLosesNothing(pst, ids[1..], depth);
      } else {
        LostAtMostSent(pst, ids[0], depth + 1);
      }
    }
  }

  lemma {:induction false} LostAtMostSent(pst: Pst, id: nat, depth: nat)
    ensures LostFor(pst, id, depth) <= SentFor(pst, id, depth)
    decreases MAX_DEPTH + 1 - depth, 1, 0
  {
    var block := RawBlock(pst, id);
    if depth <= MAX_DEPTH && 8 <= |block| && TableType(block) == TABLE_OF_TABLES {
      AllLostAtMostSent(pst, TableIds(pst, block), depth);
    }
  }

  lemma {:induction false} AllLostAtMostSent(pst: Pst, ids: seq<nat>, depth: nat)
    requires depth <= MAX_DEPTH
    ensures LostForAll(pst, ids, depth) <= SentForAll(pst, ids, depth)
    decreases MAX_DEPTH + 1 - depth, 0, |ids|
  {
    if ids != [] {
      LostAtMostSent(pst, ids[0], depth + 1);
      AllLostAtMostSent(pst, ids[1..], depth);
    }
  }

  /** How much of what was sent for an index entry does not count at the end. */
  function Lost(pst: Pst, id: nat): nat { if IsInternal(id) then LostFor(pst, id, 0) else 0 }

  lemma {:induction false} LostIsNotKept(pst: Pst, id: nat)
    ensures |Delivered(pst, id).before| == Lost(pst, id)
  {
    LostIsBefore(Progress([], []), Traversal(pst, id));
    if IsInternal(id) {
      BlocksLose(pst, id, 0);
    }
  }

  /** What counts at the end is all that was sent exactly if the stored blocks lose nothing, and
      the size returned for base64, which still counts the bytes carried over a reset, is the
      number of bytes sent exactly if they lose fewer than three bytes. */
  lemma {:induction false} KeptIsSentIff(pst: Pst, id: nat)
    ensures Delivered(pst, id).kept == Delivered(pst, id).Sent() <==> !(IsInternal(id) && Loses(pst, id, 0))
    ensures var p := Delivered(pst, id);
      |p.kept| + |p.before| % 3 == |p.Sent()| <==> Lost(pst, id) < 3
  {
    LostIsNotKept(pst, id);
    LosesIffLost(pst, id, 0);
    var p := Delivered(pst, id);
    assert |p.Sent()| == |p.before| + |p.kept|;
    assert p.before == [] ==> p.Sent() == p.kept;
  }

  /** A table of two leaves of which the second is missing: the first is sent and lost. */
  lemma {:induction false} SecondLeafMissing()
    ensures var table: seq<byte> := [1, 1, 2, 0, 0, 0, 0, 0, 4, 0, 0, 0, 8, 0, 0, 0];
      var pst := Pst(map[2 := table, 4 := [7]], 0, false);
      && Loses(pst, 2, 0) && Lost(pst, 2) == 1
      && Delivered(pst, 2) == Progress([7], [])
  {
    var table: seq<byte> := [1, 1, 2, 0, 0, 0, 0, 0, 4, 0, 0, 0, 8, 0, 0, 0];
    var pst := Pst(map[2 := table, 4 := [7]], 0, false);
    var ids := TableIds(pst, table);
    assert TableType(table) == TABLE_OF_LEAVES;
    assert ids == [4, 8];
    assert RawBlock(pst, 4) == [7] && RawBlock(pst, 8) == [] && RawBlock(pst, 2) == table;
    MissingLeafLoses(pst, ids, 1, Progress([], []));
    assert Events(pst, 2, 0) == LeafEvents(pst, ids);
    LostIsNotKept(pst, 2);
  }
}
