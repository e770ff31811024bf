/** The three ways of getting an attachment out of the file (src/libpst.c). */
module Attachment {
  import opened Bytes
  import opened Common
  import opened Holder
  import opened DataTree
  import opened LostData
  import opened StoredText
  import Base64

  /** The id of an attachment that is not stored in the file: (uint64_t)-1. */
  const NO_ID := 0xffff_ffff_ffff_ffff

  /** Data inside the record itself: a pointer, which may be null, and a size, which is recorded
      separately. */
  datatype Inline = NoData(claimed: nat) | Data(bytes: seq<byte>)

  class PstItemAttach {
    var data: Inline
    const id: nat

    constructor (data: Inline, id: nat)
      ensures this.data == data && this.id == id
    {
      this.data, this.id := data, id;
    }
  }

  /** The data is sought in the file. */
  predicate IsStored(data: Inline, id: nat) { data.NoData? && id != NO_ID }

  /** What is delivered for an attachment: its inline data if it has any, otherwise the data
      behind its id, which is looked up without its low bit. */
  function Source(pst: Pst, data: Inline, id: nat): Progress {
    if IsStored(data, id) then
      if Known(pst, id) then Delivered(pst, Key(id)) else Progress([], [])
    else if data.Data? then Progress([], data.bytes)
    else Progress([], [])
  }

  /** Without data and without an id, the size on record is returned although nothing is. */
  function Unfounded(data: Inline, id: nat): nat {
    if data.NoData? && id == NO_ID then data.claimed else 0
  }

  /** How many of the bytes sent do not count at the end, by the blocks stored. */
  function LostOf(pst: Pst, data: Inline, id: nat): nat {
    if IsStored(data, id) && Known(pst, id) then Lost(pst, Key(id)) else 0
  }

  /** The stored data of the attachment is cut by a missing block. */
  predicate LosesData(pst: Pst, data: Inline, id: nat) {
    IsStored(data, id) && Known(pst, id) && IsInternal(Key(id)) && Loses(pst, Key(id), 0)
  }

  /** The attachment is not inline, and t is stored behind its id. */
  predicate Exported(pst: Pst, data: Inline, id: nat, t: Text) {
    data.NoData? && id != 0xffff_ffff_ffff_ffff && t.id == id - id % 2 && Stored(pst, t) && NoDeeper(t, 65)
  }

  /** For an attachment whose text is stored in the file, encrypted and spread over blocks in
      whatever way, what is sent and what counts is the text. */
  lemma {:induction false} DestinationsAgree(pst: Pst, data: Inline, id: nat, t: Text)
    requires Exported(pst, data, id, t)
    ensures Source(pst, data, id) == Progress([], Read(t))
    ensures !LosesData(pst, data, id) && LostOf(pst, data, id) == 0
  {
    StoredIsIndexed(pst, t);
    StoredTreeIsDelivered(pst, t);
    LostIsNotKept(pst, Key(id));
    LosesIffLost(pst, Key(id), 0);
  }

  lemma {:induction false} StoredIsIndexed(pst: Pst, t: Text)
    requires Stored(pst, t)
    ensures Indexed(pst, t.id)
  {
    if t.id / 2 % 2 == 1 { assert StoredTree(pst, t); }
  }

  /** What memory and file receive is the same exactly if the attachment loses no data, and the
      size returned for base64 is the number of bytes sent exactly if it loses fewer than three
      bytes. Inline data always agrees. */
  lemma {:induction false} AgreementCondition(pst: Pst, data: Inline, id: nat)
    ensures var p := Source(pst, data, id);
      && (p.kept == p.Sent() <==> !LosesData(pst, data, id))
      && (|p.kept| + |p.before| % 3 == |p.Sent()| <==> LostOf(pst, data, id) < 3)
      && |p.Sent()| == |p.kept| + LostOf(pst, data, id)
  {
    if IsStored(data, id) && Known(pst, id) {
      KeptIsSentIff(pst, Key(id));
      LostIsNotKept(pst, Key(id));
    } else {
      var p := Source(pst, data, id);
      assert [] + p.kept == p.kept;
    }
  }

  /** If no block that the traversal asks for is missing, no data is lost, even if the tables are
      deeper than the reader follows or are no tables at all. */
  lemma {:induction false} PresentBlocksAgree(pst: Pst, data: Inline, id: nat)
    requires IsStored(data, id) && Known(pst, id) && IsInternal(Key(id)) ==> Present(pst, Key(id), 0)
    ensures !LosesData(pst, data, id) && LostOf(pst, data, id) == 0
  {
    if IsStored(data, id) && Known(pst, id) && IsInternal(Key(id)) {
      PresentTableLosesNothing(pst, Key(id), 0);
      LosesIffLost(pst, Key(id), 0);
    }
  }

  method AttachToMem(pst: Pst, attach: PstItemAttach) returns (size: nat, buffer: seq<byte>)
    modifies attach
    ensures var p := Source(pst, old(attach.data), attach.id);
      && size == |p.kept| + Unfounded(old(attach.data), attach.id)
      && |p.kept| <= |buffer| && buffer[..|p.kept|] == p.kept
    ensures attach.data == if IsStored(old(attach.data), attach.id) then old(attach.data) else NoData(0)
  {
    size, buffer := 0, [];
    if attach.data.NoData? && attach.id != NO_ID {
      var h := new PstHolder(true, null, false);
      if Known(pst, attach.id) {
        size := GetId2Data(pst, Key(attach.id), h);
        buffer := h.buffer;
      }
    } else {
      match attach.data {
        case NoData(claimed) => size := claimed;
        case Data(bytes) => size, buffer := |bytes|, bytes;
      }
      attach.data := NoData(0);
    }
  }

  method AttachToFile(pst: Pst, attach: PstItemAttach, fp: FileStream<byte>) returns (size: nat)
    modifies fp
    ensures var p := Source(pst, attach.data, attach.id);
      size == |p.kept| + Unfounded(attach.data, attach.id) && fp.written == old(fp.written) + p.Sent()
  {
    size := 0;
    if attach.data.NoData? && attach.id != NO_ID {
      var h := new PstHolder(false, fp, false);
      if Known(pst, attach.id) {
        size := GetId2Data(pst, Key(attach.id), h);
      } else {
        assert fp.written == old(fp.written) + [];
      }
    } else {
      match attach.data
      case NoData(claimed) =>
        size := claimed;
        assert fp.written == old(fp.written) + [];
      case Data(bytes) =>
        size := |bytes|;
        fp.Write(bytes);
        assert [] + bytes == bytes;
    }
  }

  method AttachToFileBase64(pst: Pst, attach: PstItemAttach, fp: FileStream<byte>) returns (size: nat)
    modifies fp
    ensures var p := Source(pst, attach.data, attach.id);
      && size == |p.kept| + |p.before| % 3 + Unfounded(attach.data, attach.id)
      && fp.written == old(fp.written) + Base64File(p.Sent())
  {
    size := 0;
    if attach.data.NoData? && attach.id != NO_ID {
      var h := new PstHolder(false, fp, true);
      if Known(pst, attach.id) {
        size := GetId2Data(pst, Key(attach.id), h);
      }
    } else {
      match attach.data
      case NoData(claimed) => size := claimed;
      case Data(bytes) =>
        size := |bytes|;
        var c := Base64.EncodeWrapped(bytes);
        if c != null {
          var s := StringOf(c, Base64.Wrap(0, Base64.Encode(bytes)));
          fp.Write(AsBytes(s));
        }
        assert [] + bytes == bytes;
    }
  }

  /** A text in all three destinations. */
  predicate AllReceive(text: seq<byte>, raw: seq<byte>, encoded: seq<byte>, buffer: seq<byte>, sizes: (nat, nat, nat)) {
    && raw == text && encoded == Base64File(text)
    && |text| <= |buffer| && buffer[..|text|] == text
    && sizes == (|text|, |text|, |text|)
  }

  /** What one export to all three comes to, if p is delivered and u added to the sizes. */
  predicate Receive(p: Progress, u: nat, raw: seq<byte>, encoded: seq<byte>, buffer: seq<byte>, sizes: (nat, nat, nat)) {
    && raw == p.Sent() && encoded == Base64File(p.Sent())
    && |p.kept| <= |buffer| && buffer[..|p.kept|] == p.kept
    && sizes == (|p.kept| + u, |p.kept| + u, |p.kept| + |p.before| % 3 + u)
  }

  lemma {:induction false} NothingLost(p: Progress, raw: seq<byte>, encoded: seq<byte>, buffer: seq<byte>,
                                       sizes: (nat, nat, nat))
    requires Receive(p, 0, raw, encoded, buffer, sizes) && p.before == []
    ensures AllReceive(p.kept, raw, encoded, buffer, sizes)
  {
    assert [] + p.kept == p.kept;
  }

  lemma {:induction false} WhatAgrees(pst: Pst, data: Inline, id: nat, raw: seq<byte>, encoded: seq<byte>,
                                      buffer: seq<byte>, sizes: (nat, nat, nat))
    requires Receive(Source(pst, data, id), Unfounded(data, id), raw, encoded, buffer, sizes)
    ensures var n := sizes.0 - Unfounded(data, id);
      && 0 <= n <= |buffer|
      && (raw == buffer[..n] <==> !LosesData(pst, data, id))
      && encoded == Base64File(raw)
      && sizes.0 == sizes.1
      && (sizes.2 == sizes.0 <==> LostOf(pst, data, id) % 3 == 0)
  {
    AgreementCondition(pst, data, id);
    var p := Source(pst, data, id);
    assert |p.before| == LostOf(pst, data, id);
  }

  lemma {:induction false} WholeText(pst: Pst, data: Inline, id: nat, raw: seq<byte>, encoded: seq<byte>,
                                     buffer: seq<byte>, sizes: (nat, nat, nat))
    requires Receive(Source(pst, data, id), Unfounded(data, id), raw, encoded, buffer, sizes)
    ensures forall t :: Exported(pst, data, id, t) ==> AllReceive(Read(t), raw, encoded, buffer, sizes)
    ensures data.Data? ==> AllReceive(data.bytes, raw, encoded, buffer, sizes)
  {
    var p := Source(pst, data, id);
    forall t | Exported(pst, data, id, t) ensures AllReceive(Read(t), raw, encoded, buffer, sizes) {
      DestinationsAgree(pst, data, id, t);
      NothingLost(p, raw, encoded, buffer, sizes);
    }
    if data.Data? { NothingLost(p, raw, encoded, buffer, sizes); }
  }

  lemma {:induction false} NothingDelivered(pst: Pst, data: Inline, id: nat, raw: seq<byte>, encoded: seq<byte>,
                                            buffer: seq<byte>, sizes: (nat, nat, nat))
    requires Receive(Source(pst, data, id), Unfounded(data, id), raw, encoded, buffer, sizes)
    requires data.NoData? && (id == NO_ID || !Indexed(pst, id))
    ensures raw == encoded == []
    ensures var n := if id == 0xffff_ffff_ffff_ffff then data.claimed else 0; sizes == (n, n, n)
  {
    assert Source(pst, data, id) == Progress([], []);
    assert Base64.Encode([]) == "" && Base64.Wrap(0, "") == "";
  }

  lemma {:induction false} NothingBefore(was: seq<byte>, s: seq<byte>)
    requires was == []
    ensures was + s == s
  {
  }

  method ExportToAll(pst: Pst, attach: PstItemAttach, raw: FileStream<byte>, encoded: FileStream<byte>)
    returns (buffer: seq<byte>, sizes: (nat, nat, nat))
    requires raw != encoded && raw.written == encoded.written == []
    modifies attach, raw, encoded
    ensures var data, id := old(attach.data), attach.id;
      Receive(Source(pst, data, id), Unfounded(data, id), raw.written, encoded.written, buffer, sizes)
  {
    ghost var p, u := Source(pst, attach.data, attach.id), Unfounded(attach.data, attach.id);
    NothingBefore(raw.written, p.Sent());
    NothingBefore(encoded.written, Base64File(p.Sent()));
    var fileSize := AttachToFile(pst, attach, raw);
    assert fileSize == |p.kept| + u && raw.written == p.Sent();
    var encodedSize := AttachToFileBase64(pst, attach, encoded);
    assert encodedSize == |p.kept| + |p.before| % 3 + u && encoded.written == Base64File(p.Sent());
    var size;
    size, buffer := AttachToMem(pst, attach);
    assert size == |p.kept| + u && |p.kept| <= |buffer| && buffer[..|p.kept|] == p.kept;
    sizes := (size, fileSize, encodedSize);
  }

  /** Exports one attachment to all three destinations: the text stored for it, its inline data, or
      nothing if there is neither. The buffer and the raw file agree exactly if the attachment
      loses no data, and the base64 file always encodes the raw file. The size returned for base64
      differs from the other two exactly if the number of bytes lost is no multiple of three. */
  method AttachEverywhere(pst: Pst, attach: PstItemAttach, raw: FileStream<byte>, encoded: FileStream<byte>)
    returns (buffer: seq<byte>, sizes: (nat, nat, nat))
    requires raw != encoded && raw.written == encoded.written == []
    modifies attach, raw, encoded
    ensures var data, id := old(attach.data), attach.id;
      var n := sizes.0 - Unfounded(data, id);
      && 0 <= n <= |buffer|
      && (raw.written == buffer[..n] <==> !LosesData(pst, data, id))
      && encoded.written == Base64File(raw.written)
      && sizes.0 == sizes.1
      && (sizes.2 == sizes.0 <==> LostOf(pst, data, id) % 3 == 0)
    ensures forall t :: Exported(pst, old(attach.data), attach.id, t) ==>
      AllReceive(Read(t), raw.written, encoded.written, buffer, sizes)
    ensures old(attach.data).Data? ==>
      AllReceive(old(attach.data).bytes, raw.written, encoded.written, buffer, sizes)
    ensures old(attach.data).NoData? && (attach.id == 0xffff_ffff_ffff_ffff || !Indexed(pst, attach.id)) ==>
      && raw.written == encoded.written == []
      && var n := if attach.id == 0xffff_ffff_ffff_ffff then old(attach.data).claimed else 0; sizes == (n, n, n)
  {
    ghost var data, id := attach.data, attach.id;
    buffer, sizes := ExportToAll(pst, attach, raw, encoded);
    WhatAgrees(pst, data, id, raw.written, encoded.written, buffer, sizes);
    WholeText(pst, data, id, raw.written, encoded.written, buffer, sizes);
    if data.NoData? && (id == NO_ID || !Indexed(pst, id)) {
      NothingDelivered(pst, data, id, raw.written, encoded.written, buffer, sizes);
    }
  }
}
