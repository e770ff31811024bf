/** Output destinations for block data (src/libpst.c, pst_holder): a growing buffer, a file,
    or a file receiving base64. */
module Holder {
  import opened Bytes
  import opened Common
  import Base64

  /** The bytes that fwrite puts into a file for a C string. */
  function AsBytes(s: string): (r: seq<byte>)
    ensures |r| == |s|
  {
    seq(|s|, i requires 0 <= i < |s| => s[i] as int % 256)
  }

  lemma {:induction false} AsBytesAppend(a: string, b: string)
    ensures AsBytes(a + b) == AsBytes(a) + AsBytes(b)
  {
  }

  /** The base64 file for data: one-shot encoding in lines of 76. */
  function Base64File(data: seq<byte>): seq<byte> {
    AsBytes(Base64.Wrap(0, Base64.Encode(data)))
  }

  lemma {:induction false} AsBytesAscii(s: string)
    requires forall i :: 0 <= i < |s| ==> s[i] as int < 256
    ensures forall i :: 0 <= i < |s| ==> AsBytes(s)[i] == s[i] as int
  {
  }

  lemma {:induction false} TextIsAscii(data: seq<byte>, j: nat)
    requires j < |Base64.Wrap(0, Base64.Encode(data))|
    ensures Base64.Wrap(0, Base64.Encode(data))[j] as int < 128
  {
    Base64.WrapShape(0, Base64.Encode(data));
    Base64.EncodeAlphabet(data);
    assert j + 0 == j;
  }

  /** The file byte by byte: lines of 76 codes of characters, each but the last with a newline,
      whose code is 10. */
  lemma {:induction false} FileShape(data: seq<byte>)
    ensures var s, file := Base64.Encode(data), Base64File(data);
      && |file| == |s| + (if s == "" then 0 else (|s| - 1) / 76)
      && forall j :: 0 <= j < |file| ==>
        if j % 77 == 76 then file[j] == 10
        else 0 <= j - j / 77 < |s| && file[j] == s[j - j / 77] as int
  {
    var s := Base64.Encode(data);
    var text := Base64.Wrap(0, s);
    Base64.WrapShape(0, s);
    forall j | 0 <= j < |text| ensures text[j] as int < 256 { TextIsAscii(data, j); }
    AsBytesAscii(text);
    forall j | 0 <= j < |text|
      ensures if j % 77 == 76 then text[j] == '\n' else 0 <= j - j / 77 < |s| && text[j] == s[j - j / 77]
    {
      assert (j + 0) % 77 == j % 77;
    }
  }

  function Chars(bytes: seq<byte>): string {
    seq(|bytes|, i requires 0 <= i < |bytes| => bytes[i] as char)
  }

  /** Reading the bytes of the file as characters and decoding them gives back the data. */
  lemma {:induction false} FileRoundTrip(data: seq<byte>)
    ensures Base64.Decode(Base64.StripBreaks(Chars(Base64File(data)))) == Some(data)
  {
    var text := Base64.Wrap(0, Base64.Encode(data));
    forall j | 0 <= j < |text| ensures text[j] as int < 256 { TextIsAscii(data, j); }
    AsBytesAscii(text);
    assert Chars(AsBytes(text)) == text;
    Base64.WrappedRoundTrip(0, data);
  }

  datatype Kind = ToBuffer | ToFile | ToBase64 | Nowhere

  class PstHolder {
    const hasBuffer: bool
    const fp: FileStream?<byte>
    const base64: bool

    var buffer: seq<byte>        // *h->buf
    var lineCount: int           // base64 characters on the current line
    var extra: seq<byte>         // up to two bytes not encoded yet

    ghost const start: seq<byte> // contents of the file before the holder was made
    ghost var before: seq<byte>  // bytes appended before the running size was last reset to zero
    ghost var kept: seq<byte>    // bytes appended since then
    ghost var whole: seq<byte>   // in base64 mode, the bytes encoded so far

    constructor (hasBuffer: bool, fp: FileStream?<byte>, base64: bool)
      ensures this.hasBuffer == hasBuffer && this.fp == fp && this.base64 == base64
      ensures before == kept == buffer == [] && Valid() && Sized(0)
      ensures fp != null ==> start == fp.written
    {
      this.hasBuffer, this.fp, this.base64 := hasBuffer, fp, base64;
      buffer, lineCount, extra := [], 0, [];
      before, kept, whole, start := [], [], [], if fp == null then [] else fp.written;
    }

    function Mode(): Kind {
      if hasBuffer then ToBuffer
      else if base64 && fp != null then ToBase64
      else if fp != null then ToFile
      else Nowhere
    }

    ghost function Sent(): seq<byte>
      reads this
    {
      before + kept
    }

    /** What the file holds: the raw bytes, or the one-shot encoding of all whole groups of
        three, with the remaining bytes carried over. */
    ghost predicate Valid()
      reads this, fp
    {
      && Base64.IsColumn(lineCount)
      && (Mode() != ToBase64 ==> extra == [])
      && match Mode()
         case ToFile => fp.written == start + Sent()
         case ToBase64 =>
           && |whole| % 3 == 0 && |extra| < 3 && Sent() == whole + extra
           && fp.written == start + Base64File(whole)
           && lineCount == ColumnOf(whole)
         case _ => true
    }

    /** The running size that the callers keep outside the holder. In base64 mode it leaves out
        the bytes still carried over, and counts those that were carried when it was reset. */
    ghost predicate Sized(size: nat)
      reads this
    {
      match Mode()
      case ToBuffer => size == |kept| <= |buffer| && buffer[..size] == kept
      case ToBase64 => size + |extra| == |kept| + |before| % 3
      case _ => size == |kept|
    }

    /** The base64 branch of pst_append_holder: returns the number of bytes it encodes. */
    method AppendBase64(data: seq<byte>) returns (z: nat)
      requires Valid() && Mode() == ToBase64
      modifies this, fp
      ensures Valid()
      ensures before == old(before) && kept == old(kept) + data
      ensures z + |extra| == old(|extra|) + |data|
    {
      ghost var all, was := Sent(), whole;
      var buf := extra + data;
      var left := |buf| % 3;
      z := |buf| - left;
      var chunk := buf[..z];
      extra := buf[z..];
      WholeGroups(|was|, |buf|);
      WriteEncoded(chunk);
      kept := kept + data;
      assert Sent() == all + data == was + buf == whole + extra;
    }

    /** Encodes a chunk where the file stops. */
    method WriteEncoded(chunk: seq<byte>)
      requires fp != null && |whole| % 3 == 0
      requires fp.written == start + Base64File(whole) && lineCount == ColumnOf(whole)
      modifies fp, this`lineCount, this`whole
      ensures whole == old(whole) + chunk
      ensures fp.written == start + Base64File(whole) && lineCount == ColumnOf(whole)
    {
      ghost var text := Base64.Wrap(lineCount, Base64.Encode(chunk));
      FileGrows(start, whole, chunk);
      var t, column := Base64.EncodeMultiple(chunk, lineCount);
      if t != null {
        var s := StringOf(t, text);
        fp.Write(AsBytes(s));
      }
      lineCount := column;
      whole := whole + chunk;
    }

    /** pst_append_holder: appends data, and returns the updated size. */
    method Append(size: nat, data: seq<byte>) returns (size': nat)
      requires Valid() && Sized(size)
      modifies this, fp
      ensures Valid() && Sized(size')
      ensures before == old(before) && kept == old(kept) + data
    {
      if hasBuffer {
        buffer := buffer[..size] + data;
        kept := kept + data;
        size' := size + |data|;
      } else if base64 && fp != null {
        var z := AppendBase64(data);
        size' := size + z;
      } else {
        if fp != null {
          fp.Write(data);
        }
        assert before + (kept + data) == Sent() + data;
        kept := kept + data;
        size' := size + |data|;
      }
    }

    /** A caller that gives up returns 0 as the running size; the destination keeps what it has. */
    ghost method StartOver()
      requires Valid()
      modifies this`before, this`kept
      ensures Valid() && Sized(0)
      ensures before == old(before) + old(kept) && kept == []
    {
      ghost var all := Sent();
      before, kept := all, [];
      assert all + [] == all;
      if Mode() == ToBase64 { Carried(|whole|, |extra|); }
    }

    /** pst_finish_cleanup_holder: encodes what is still carried over. */
    method Finish(size: nat) returns (size': nat)
      requires Valid() && Sized(size)
      modifies this, fp
      ensures before == old(before) && kept == old(kept) && buffer == old(buffer)
      ensures size' == |kept| + if Mode() == ToBase64 then |before| % 3 else 0
      ensures Mode() == ToFile ==> fp.written == start + Sent()
      ensures Mode() == ToBase64 ==> fp.written == start + Base64File(Sent())
    {
      size' := size;
      if base64 && fp != null && extra != [] {
        WriteEncoded(extra);
        size' := size' + |extra|;
      } else {
        assert Mode() == ToBase64 ==> Sent() == whole;
      }
    }
  }

  lemma {:induction false} Carried(m: nat, n: nat)
    requires m % 3 == 0 && n < 3
    ensures (m + n) % 3 == n
  {
  }

  lemma {:induction false} WholeGroups(m: nat, n: nat)
    requires m % 3 == 0
    ensures (m + (n - n % 3)) % 3 == 0
  {
  }

  /** The column at which the base64 file for data stops. */
  function ColumnOf(data: seq<byte>): int { Base64.ColumnAfter(0, |Base64.Encode(data)|) }

  lemma {:induction false} FileGrows(start: seq<byte>, whole: seq<byte>, chunk: seq<byte>)
    requires |whole| % 3 == 0
    ensures var text := Base64.Wrap(ColumnOf(whole), Base64.Encode(chunk));
      start + Base64File(whole + chunk) == start + Base64File(whole) + AsBytes(text)
    ensures ColumnOf(whole + chunk) == Base64.ColumnAfter(ColumnOf(whole), |Base64.Encode(chunk)|)
    ensures chunk == [] ==> whole + chunk == whole
  {
    ChunkAppends(whole, chunk);
    ColumnGrows(whole, chunk);
  }

  /** Encoding whole groups where the file stops gives the encoding of everything so far. */
  lemma {:induction false} ChunkAppends(whole: seq<byte>, chunk: seq<byte>)
    requires |whole| % 3 == 0
    ensures Base64File(whole + chunk) == Base64File(whole) + AsBytes(Base64.Wrap(ColumnOf(whole), Base64.Encode(chunk)))
  {
    var a, b := Base64.Encode(whole), Base64.Encode(chunk);
    Base64.EncodeSplits(whole, chunk);
    Base64.WrapSplits(0, a, b);
    AsBytesAppend(Base64.Wrap(0, a), Base64.Wrap(ColumnOf(whole), b));
  }

  lemma {:induction false} ColumnGrows(whole: seq<byte>, chunk: seq<byte>)
    requires |whole| % 3 == 0
    ensures ColumnOf(whole + chunk) == Base64.ColumnAfter(ColumnOf(whole), |Base64.Encode(chunk)|)
  {
    var m, n := |Base64.Encode(whole)|, |Base64.Encode(chunk)|;
    assert |Base64.Encode(whole + chunk)| == m + n by { Base64.EncodeSplits(whole, chunk); }
    Base64.ColumnSplits(0, m, n);
  }
}
