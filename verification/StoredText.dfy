/** Stored data seen from its plain text: which bytes the file has to hold, block by block, for
    the reader to deliver a given text. Nothing here is said in terms of the reader. */
module StoredText {
  import opened Bytes
  import Cipher
  import opened Common
  import opened DataTree

  /** A text as it is spread over blocks. */
  datatype Text =
    | Block(id: nat, data: seq<byte>)
    | Stub(id: nat)
    | LeafTable(id: nat, leaves: seq<Leaf>)
    | TableOfTables(id: nat, tables: seq<Text>)

  datatype Leaf = Leaf(id: nat, data: seq<byte>)

  function Join(leaves: seq<Leaf>): seq<byte> {
    if leaves == [] then [] else leaves[0].data + Join(leaves[1..])
  }

  function Read(t: Text): seq<byte>
    decreases t, 1
  {
    match t
    case Block(_, data) => data
    case Stub(_) => []
    case LeafTable(_, leaves) => Join(leaves)
    case TableOfTables(_, tables) => ReadAll(tables)
  }

  function ReadAll(ts: seq<Text>): seq<byte>
    decreases ts, 0
  {
    if ts == [] then [] else Read(ts[0]) + ReadAll(ts[1..])
  }

  /** The part of the text that lies no deeper than so many levels. */
  function ReadTo(t: Text, levels: nat): seq<byte>
    decreases t, 1
  {
    if levels == 0 then []
    else
      match t
      case Block(_, data) => data
      case Stub(_) => []
      case LeafTable(_, leaves) => Join(leaves)
      case TableOfTables(_, tables) => ReadAllTo(tables, levels - 1)
  }

  function ReadAllTo(ts: seq<Text>, levels: nat): seq<byte>
    decreases ts, 0
  {
    if ts == [] then [] else ReadTo(ts[0], levels) + ReadAllTo(ts[1..], levels)
  }

  /** On every way down there are at most so many levels. */
  predicate NoDeeper(t: Text, levels: nat)
    decreases t
  {
    levels > 0 && (t.TableOfTables? ==> forall i :: 0 <= i < |t.tables| ==> NoDeeper(t.tables[i], levels - 1))
  }

  lemma {:induction false} NothingDeeper(t: Text, levels: nat)
    requires NoDeeper(t, levels)
    ensures ReadTo(t, levels) == Read(t)
    decreases t, 1
  {
    if t.TableOfTables? { NoneDeeper(t.tables, levels - 1); }
  }

  lemma {:induction false} NoneDeeper(ts: seq<Text>, levels: nat)
    requires forall i :: 0 <= i < |ts| ==> NoDeeper(ts[i], levels)
    ensures ReadAllTo(ts, levels) == ReadAll(ts)
    decreases ts, 0
  {
    if ts != [] {
      NothingDeeper(ts[0], levels);
      NoneDeeper(ts[1..], levels);
    }
  }

  // ---------- what is stored ----------

  /** The block index has an entry for the id, not counting its low bit. */
  predicate Indexed(pst: Pst, id: nat) { id != 0 && id - id % 2 in pst.blocks }

  /** The bytes in the file are the data encrypted for the block's id. */
  predicate Encrypts(kind: byte, id: nat, data: seq<byte>, raw: seq<byte>) {
    && |raw| == |data|
    && forall x :: 0 <= x < |data| ==>
      raw[x] == if kind == 1 then Cipher.CompHigh1(data[x])
                else if kind == 2 then Cipher.Strong(Cipher.SaltAt(id, x), data[x])
                else data[x]
  }

  /** The data of a block is stored encrypted, unless bit 1 of its id is set. */
  predicate StoredBlock(pst: Pst, id: nat, data: seq<byte>) {
    && Indexed(pst, id)
    && var raw := pst.blocks[id - id % 2];
       if id / 2 % 2 == 1 then raw == data else Encrypts(pst.encryption, id, data, raw)
  }

  /** A table of ids: its kind in byte 1, the number of ids in bytes 2 and 3, and the ids from
      byte 8 on, 8 or 4 bytes each, as many of them as there is room for. Other bytes do not
      matter. */
  predicate StoredTable(pst: Pst, id: nat, kind: byte, ids: seq<nat>) {
    && Indexed(pst, id)
    && var raw, width := pst.blocks[id - id % 2], if pst.wide then 8 else 4;
       && 8 <= |raw| && raw[0] == 1 && raw[1] == kind
       && |ids| == Min(raw[2] + 0x100 * (raw[3] as int), (|raw| - 8) / width)
       && forall i :: 0 <= i < |ids| ==> IdAt(raw, 8 + i * width, width, ids[i])
  }

  /** An id is stored at the given place. */
  predicate IdAt(raw: seq<byte>, at: nat, width: nat, id: nat) {
    at + width <= |raw| && ReadLE(raw, at, width) == id
  }

  function LeafIds(leaves: seq<Leaf>): seq<nat> { seq(|leaves|, i requires 0 <= i < |leaves| => leaves[i].id) }

  function Ids(ts: seq<Text>): seq<nat> { seq(|ts|, i requires 0 <= i < |ts| => ts[i].id) }

  /** A block that is no table after all is stored encrypted, whatever its id. */
  predicate StoredData(pst: Pst, id: nat, data: seq<byte>) {
    && Indexed(pst, id)
    && var raw := pst.blocks[id - id % 2];
       IsNoTable(raw) && Encrypts(pst.encryption, id, data, raw)
  }

  predicate IsNoTable(raw: seq<byte>) { 8 <= |raw| && (raw[0] != 1 || (raw[1] != 1 && raw[1] != 2)) }

  /** A block that is too short for a table holds no text. */
  predicate StoredStub(pst: Pst, id: nat) { Indexed(pst, id) && 0 < |pst.blocks[id - id % 2]| < 8 }

  predicate StoredLeaves(pst: Pst, leaves: seq<Leaf>) {
    forall i :: 0 <= i < |leaves| ==> leaves[i].data != [] && StoredBlock(pst, leaves[i].id, leaves[i].data)
  }

  predicate StoredTree(pst: Pst, t: Text)
    decreases t
  {
    match t
    case Block(id, data) => StoredData(pst, id, data)
    case Stub(id) => StoredStub(pst, id)
    case LeafTable(id, leaves) => StoredTable(pst, id, 1, LeafIds(leaves)) && StoredLeaves(pst, leaves)
    case TableOfTables(id, tables) =>
      && StoredTable(pst, id, 2, Ids(tables))
      && forall i :: 0 <= i < |tables| ==> StoredTree(pst, tables[i])
  }

  /** The text behind an index entry: one block, or a tree if bit 1 of its id is set. */
  predicate Stored(pst: Pst, t: Text) {
    if t.id / 2 % 2 == 1 then StoredTree(pst, t) else t.Block? && StoredBlock(pst, t.id, t.data)
  }

  // ---------- blocks ----------

  lemma {:induction false} DecryptionInverts(kind: byte, id: nat, data: seq<byte>, raw: seq<byte>)
    ensures Cipher.Decrypted(id, raw, kind) == data <==> Encrypts(kind, id, data, raw)
  {
    var plain := Cipher.Decrypted(id, raw, kind);
    if |raw| == |data| {
      forall x | 0 <= x < |data|
        ensures plain[x] == data[x] <==>
          raw[x] == if kind == 1 then Cipher.CompHigh1(data[x])
                    else if kind == 2 then Cipher.Strong(Cipher.SaltAt(id, x), data[x])
                    else data[x]
      {
        ByteInverts(kind, id, raw, x, data[x]);
      }
    }
  }

  lemma {:induction false} ByteInverts(kind: byte, id: nat, raw: seq<byte>, x: nat, y: byte)
    requires x < |raw|
    ensures Cipher.Decrypted(id, raw, kind)[x] == y <==>
      raw[x] == if kind == 1 then Cipher.CompHigh1(y)
                else if kind == 2 then Cipher.Strong(Cipher.SaltAt(id, x), y)
                else y
  {
    if kind == 1 {
      Cipher.RotorsAreInverse(raw[x]);
      Cipher.RotorsAreInverse(y);
    } else if kind == 2 {
      Cipher.StrongAt(id, raw, x);
      Cipher.StrongTwice(Cipher.SaltAt(id, x), raw[x]);
      Cipher.StrongTwice(Cipher.SaltAt(id, x), y);
    }
  }

  /** The reader decrypts: what it takes from a block is the one data whose encryption for the
      block's id is stored, and the bytes as they are if bit 1 of the id is set. */
  lemma {:induction false} BlockIsDecrypted(pst: Pst, id: nat, data: seq<byte>)
    requires Indexed(pst, id)
    ensures DecryptedBlock(pst, id) == data <==> StoredBlock(pst, id, data)
    ensures Untabled(pst, id) == data <==> Encrypts(pst.encryption, id, data, pst.blocks[id - id % 2])
  {
    DecryptionInverts(pst.encryption, id, data, pst.blocks[id - id % 2]);
    InClear(pst.encryption, id, data, pst.blocks[id - id % 2]);
  }

  /** Where there is no entry nothing is read, and a traversal gives up. */
  lemma {:induction false} NotIndexed(pst: Pst, id: nat, depth: nat)
    requires !Indexed(pst, id) && depth <= 64
    ensures RawBlock(pst, id) == DecryptedBlock(pst, id) == [] && Events(pst, id, depth) == [Reset]
  {
  }

  lemma {:induction false} InClear(kind: byte, id: nat, data: seq<byte>, raw: seq<byte>)
    ensures kind == 0 ==> (raw == data <==> Encrypts(kind, id, data, raw))
  {
  }

  // ---------- tables ----------

  lemma {:induction false} IdsAreRead(pst: Pst, raw: seq<byte>, width: nat, ids: seq<nat>, at: nat, count: nat)
    requires width == IdSize(pst) && at <= |raw| && |ids| == Min(count, (|raw| - at) / width)
    requires forall i :: 0 <= i < |ids| ==> IdAt(raw, at + i * width, width, ids[i])
    ensures IdsFrom(pst, raw, at, count) == ids
    decreases |ids|
  {
    if ids != [] {
      assert IdAt(raw, at + 0 * width, width, ids[0]);
      forall i | 0 <= i < |ids| - 1 ensures IdAt(raw, at + width + i * width, width, ids[1..][i]) {
        assert IdAt(raw, at + (i + 1) * width, width, ids[i + 1]);
      }
      OneFewer(|raw| - at, width);
      IdsAreRead(pst, raw, width, ids[1..], at + width, count - 1);
    }
  }

  lemma {:induction false} OneFewer(room: nat, width: nat)
    requires width == 4 || width == 8
    requires room >= width
    ensures (room - width) / width == room / width - 1
  {
  }

  lemma {:induction false} KindOfTable(raw: seq<byte>)
    requires 8 <= |raw|
    ensures TableType(raw) == TABLE_OF_LEAVES <==> raw[0] == 1 && raw[1] == 1
    ensures TableType(raw) == TABLE_OF_TABLES <==> raw[0] == 1 && raw[1] == 2
    ensures ReadLE(raw, 2, 2) == raw[2] + 0x100 * (raw[3] as int)
  {
    TwoBytes(raw, 0);
    TwoBytes(raw, 2);
  }

  lemma {:induction false} TableIsRead(pst: Pst, id: nat, kind: byte, ids: seq<nat>)
    requires StoredTable(pst, id, kind, ids)
    ensures var raw := RawBlock(pst, id);
      && 8 <= |raw| && TableIds(pst, raw) == ids
      && (kind == 1 ==> TableType(raw) == TABLE_OF_LEAVES)
      && (kind == 2 ==> TableType(raw) == TABLE_OF_TABLES)
  {
    var raw := RawBlock(pst, id);
    KindOfTable(raw);
    IdsAreRead(pst, raw, IdSize(pst), ids, 8, ReadLE(raw, 2, 2));
  }

  // ---------- trees ----------

  lemma {:induction false} NoTableEvents(pst: Pst, id: nat, depth: nat)
    requires Indexed(pst, id) && IsNoTable(pst.blocks[id - id % 2]) && depth <= 64
    ensures Events(pst, id, depth) == [Append(Untabled(pst, id))]
  {
    KindOfTable(pst.blocks[id - id % 2]);
  }

  lemma {:induction false} DataEvents(pst: Pst, id: nat, data: seq<byte>, depth: nat)
    requires StoredData(pst, id, data) && depth <= 64
    ensures Events(pst, id, depth) == [Append(data)]
  {
    NoTableEvents(pst, id, depth);
    BlockIsDecrypted(pst, id, data);
  }

  lemma {:induction false} TableEvents(pst: Pst, id: nat, kind: byte, ids: seq<nat>, depth: nat)
    requires StoredTable(pst, id, kind, ids) && depth <= 64
    ensures kind == 1 ==> Events(pst, id, depth) == LeafEvents(pst, ids)
    ensures kind == 2 ==> Events(pst, id, depth) == EventsOfAll(pst, ids, depth)
  {
    TableIsRead(pst, id, kind, ids);
  }

  lemma {:induction false} LeavesDeliver(pst: Pst, leaves: seq<Leaf>, p: Progress)
    requires StoredLeaves(pst, leaves)
    ensures p.AfterAll(LeafEvents(pst, LeafIds(leaves))) == Progress(p.before, p.kept + Join(leaves))
    decreases |leaves|
  {
    if leaves == [] {
      assert p.kept + [] == p.kept;
    } else {
      var first := leaves[0].data;
      BlockIsDecrypted(pst, leaves[0].id, first);
      LeavesDeliver(pst, leaves[1..], p.After(Append(first)));
      assert LeafIds(leaves)[1..] == LeafIds(leaves[1..]);
      Associates(p.kept, first, Join(leaves[1..]));
    }
  }

  /** However a tree is encrypted, it is delivered as its text, as far down as the 65th level. */
  lemma {:induction false} TreeDelivers(pst: Pst, t: Text, levels: nat, p: Progress)
    requires StoredTree(pst, t) && levels <= 65
    ensures p.AfterAll(Events(pst, t.id, 65 - levels)) == Progress(p.before, p.kept + ReadTo(t, levels))
    decreases t, 1
  {
    if levels == 0 {
      assert p.kept + [] == p.kept;
    } else {
      match t {
        case Block(id, data) =>
          DataEvents(pst, id, data, 65 - levels);
          AfterAllSplits(p, [Append(data)], []);
        case Stub(id) =>
          assert Events(pst, id, 65 - levels) == [] && p.kept + [] == p.kept;
        case LeafTable(id, leaves) =>
          TableEvents(pst, id, 1, LeafIds(leaves), 65 - levels);
          LeavesDeliver(pst, leaves, p);
        case TableOfTables(id, tables) =>
          TableEvents(pst, id, 2, Ids(tables), 65 - levels);
          AllDeliver(pst, tables, levels - 1, p);
      }
    }
  }

  lemma {:induction false} AllDeliver(pst: Pst, ts: seq<Text>, levels: nat, p: Progress)
    requires levels <= 64 && forall i :: 0 <= i < |ts| ==> StoredTree(pst, ts[i])
    ensures p.AfterAll(EventsOfAll(pst, Ids(ts), 64 - levels)) == Progress(p.before, p.kept + ReadAllTo(ts, levels))
    decreases ts, 0
  {
    if ts == [] {
      assert p.kept + [] == p.kept;
    } else {
      var first := ReadTo(ts[0], levels);
      TreeDelivers(pst, ts[0], levels, p);
      AllDeliver(pst, ts[1..], levels, Progress(p.before, p.kept + first));
      FirstOfAll(pst, ts, 64 - levels, p);
      Associates(p.kept, first, ReadAllTo(ts[1..], levels));
    }
  }

  lemma {:induction false} FirstOfAll(pst: Pst, ts: seq<Text>, depth: nat, p: Progress)
    requires ts != [] && depth <= 64
    ensures p.AfterAll(EventsOfAll(pst, Ids(ts), depth))
         == p.AfterAll(Events(pst, ts[0].id, depth + 1)).AfterAll(EventsOfAll(pst, Ids(ts[1..]), depth))
  {
    assert Ids(ts)[1..] == Ids(ts[1..]);
    AfterAllSplits(p, Events(pst, ts[0].id, depth + 1), EventsOfAll(pst, Ids(ts[1..]), depth));
  }

  /** A file that stores a text behind an index entry delivers the text: all of it, without a
      reset, if it has at most 65 levels. */
  lemma {:induction false} StoredTreeIsDelivered(pst: Pst, t: Text)
    requires Stored(pst, t)
    ensures Delivered(pst, t.id) == Progress([], ReadTo(t, 65))
    ensures NoDeeper(t, 65) ==> Delivered(pst, t.id) == Progress([], Read(t))
  {
    if t.id / 2 % 2 == 1 {
      TreeDelivers(pst, t, 65, Progress([], []));
    } else {
      BlockIsDecrypted(pst, t.id, t.data);
      OneBlock(pst, t.id);
    }
    if NoDeeper(t, 65) { NothingDeeper(t, 65); }
  }

  /** The byte 0 as block 4, under the three kinds of encryption. */
  lemma {:induction false} KnownBlocks(raw: seq<byte>, id: nat)
    requires raw == [0] && id == 4
    ensures Delivered(Pst(map[4 := raw], 0, true), id) == Progress([], [0])
    ensures Delivered(Pst(map[4 := raw], 1, true), id) == Progress([], [0x47])
    ensures Delivered(Pst(map[4 := raw], 2, true), id) == Progress([], [0xb6])
  {
    Cipher.KnownBytes(id, raw);
    OneBlock(Pst(map[4 := raw], 0, true), id);
    OneBlock(Pst(map[4 := raw], 1, true), id);
    OneBlock(Pst(map[4 := raw], 2, true), id);
  }

  lemma {:induction false} OneBlock(pst: Pst, id: nat)
    requires id / 2 % 2 == 0
    ensures Delivered(pst, id) == Progress([], DecryptedBlock(pst, id))
  {
    AfterAllSplits(Progress([], []), [Append(DecryptedBlock(pst, id))], []);
  }
}
