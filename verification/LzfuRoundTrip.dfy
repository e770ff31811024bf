/** Printing a token list in the framing of section 2 of [MS-OXRTFCP], and the proof that
    decompression yields the expansion of exactly that list. */
module LzfuRoundTrip {
  import opened Bytes
  import opened Lzfu

  predicate ValidTokens(ts: seq<Token>) {
    forall i :: 0 <= i < |ts| ==> ValidToken(ts[i])
  }

  function PrintToken(t: Token): (s: seq<byte>)
    requires ValidToken(t)
    ensures |s| == if t.Literal? then 1 else 2
  {
    match t
    case Literal(c) => [c]
    case Reference(offset, length) => [offset / 16, offset % 16 * 16 + (length - 2)]
  }

  function PrintGroup(ts: seq<Token>): seq<byte>
    requires ValidTokens(ts)
  {
    if ts == [] then [] else PrintToken(ts[0]) + PrintGroup(ts[1..])
  }

  /** One flag per token, the first in the lowest bit; missing flags are zero. */
  function FlagsOf(ts: seq<Token>): nat {
    if ts == [] then 0 else (if ts[0].Reference? then 1 else 0) + 2 * FlagsOf(ts[1..])
  }

  lemma {:induction false} FlagsFit(ts: seq<Token>, n: nat)
    requires |ts| <= n
    ensures FlagsOf(ts) < Pow2(n)
    decreases n
  {
    if n > 0 && ts != [] {
      FlagsFit(ts[1..], n - 1);
    } else if n > 0 {
      FlagsFit(ts, n - 1);
    }
  }

  function FlagByte(ts: seq<Token>): byte
    requires |ts| <= 8
  {
    FlagsFit(ts, 8);
    FlagsOf(ts)
  }

  /** Groups of up to eight tokens, each behind its flag byte. */
  function Print(ts: seq<Token>): seq<byte>
    requires ValidTokens(ts)
    decreases |ts|
  {
    if ts == [] then []
    else if |ts| <= 8 then [FlagByte(ts)] + PrintGroup(ts)
    else [FlagByte(ts[..8])] + PrintGroup(ts[..8]) + Print(ts[8..])
  }

  /** A whole compressed block around the printed tokens. */
  function PrintBlock(ts: seq<Token>, rawSize: nat, magic: nat, crc: nat): (s: seq<byte>)
    requires ValidTokens(ts)
    ensures |s| == HEADER_SIZE + |Print(ts)|
  {
    WriteLE(|Print(ts)| + 12, 4) + WriteLE(rawSize, 4) + WriteLE(magic, 4) + WriteLE(crc, 4) + Print(ts)
  }

  lemma {:induction false} ReferenceRoundTrip(body: seq<byte>, at: nat, t: Token)
    requires t.Reference? && ValidToken(t)
    requires at + 1 < |body| && body[at..at + 2] == PrintToken(t)
    ensures ReferenceAt(body, at) == t
  {
    var high, low := t.offset / 16, t.offset % 16 * 16 + (t.length - 2);
    assert body[at] == body[at..at + 2][0] == high;
    assert body[at + 1] == body[at..at + 2][1] == low;
    assert 256 * high + low == 16 * t.offset + (t.length - 2);
  }

  /** Flags beyond the last token of the stream read nothing. */
  lemma {:induction false} PaddingReadsNothing(body: seq<byte>, bits: nat)
    ensures ParseGroup(body, |body|, 0, bits) == ([], |body|)
    decreases bits
  {
    if bits > 0 {
      PaddingReadsNothing(body, bits - 1);
    }
  }

  /** The first token of a printed group is read back, and the rest follows it. */
  lemma {:induction false} GroupHead(body: seq<byte>, at: nat, t: Token, flags: nat, bits: nat)
    requires ValidToken(t) && bits > 0
    requires flags % 2 == if t.Reference? then 1 else 0
    requires at + |PrintToken(t)| <= |body| && body[at..at + |PrintToken(t)|] == PrintToken(t)
    ensures var rest := ParseGroup(body, at + |PrintToken(t)|, flags / 2, bits - 1);
      ParseGroup(body, at, flags, bits) == ([t] + rest.0, rest.1)
  {
    if t.Reference? {
      ReferenceRoundTrip(body, at, t);
    } else {
      assert body[at] == PrintToken(t)[0];
    }
  }

  lemma {:induction false} GroupRoundTrip(pre: seq<byte>, ts: seq<Token>, post: seq<byte>, bits: nat)
    requires ValidTokens(ts)
    requires |ts| <= bits && (post == [] || |ts| == bits)
    ensures ParseGroup(pre + PrintGroup(ts) + post, |pre|, FlagsOf(ts), bits) == (ts, |pre| + |PrintGroup(ts)|)
    decreases |ts|
  {
    if ts == [] {
      EmptyGroup(pre, post, bits);
    } else {
      var t, tail, image := ts[0], ts[1..], PrintToken(ts[0]);
      var more := PrintGroup(tail);
      assert FlagsOf(ts) % 2 == (if t.Reference? then 1 else 0) && FlagsOf(ts) / 2 == FlagsOf(tail);
      GroupHeadOf(pre, image, more, post, t, FlagsOf(ts), bits);
      GroupRoundTrip(pre + image, tail, post, bits - 1);
      assert PrintGroup(ts) == image + more;
      assert ts == [t] + tail;
    }
  }

  lemma {:induction false} EmptyGroup(pre: seq<byte>, post: seq<byte>, bits: nat)
    requires post == [] || bits == 0
    ensures ParseGroup(pre + [] + post, |pre|, 0, bits) == ([], |pre|)
  {
    if post == [] {
      assert pre + [] + post == pre;
      PaddingReadsNothing(pre, bits);
    }
  }

  lemma {:induction false} GroupHeadOf(pre: seq<byte>, image: seq<byte>, more: seq<byte>, post: seq<byte>, t: Token, flags: nat, bits: nat)
    requires ValidToken(t) && bits > 0 && image == PrintToken(t)
    requires flags % 2 == if t.Reference? then 1 else 0
    ensures var rest := ParseGroup((pre + image) + more + post, |pre + image|, flags / 2, bits - 1);
      ParseGroup(pre + (image + more) + post, |pre|, flags, bits) == ([t] + rest.0, rest.1)
  {
    var body := pre + (image + more) + post;
    assert body == (pre + image) + more + post;
    assert body[|pre|..|pre| + |image|] == image;
    GroupHead(body, |pre|, t, flags, bits);
  }

  /** Printing splits off one group at a time, whether or not it is full. */
  lemma {:induction false} PrintSplits(ts: seq<Token>)
    requires ValidTokens(ts) && ts != []
    ensures var k := Min(|ts|, 8);
      && Print(ts) == [FlagByte(ts[..k])] + PrintGroup(ts[..k]) + Print(ts[k..])
      && (k == 8 || Print(ts[k..]) == [])
  {
    if |ts| <= 8 {
      assert ts[..|ts|] == ts;
    }
  }

  lemma {:induction false} ParseRoundTrip(pre: seq<byte>, ts: seq<Token>)
    requires ValidTokens(ts)
    ensures Parse(pre + Print(ts), |pre|) == ts
    decreases |ts|
  {
    if ts != [] {
      var k := Min(|ts|, 8);
      PrintSplits(ts);
      FirstGroup(pre, ts[..k], Print(ts[k..]));
      ParseRoundTrip(pre + [FlagByte(ts[..k])] + PrintGroup(ts[..k]), ts[k..]);
      assert ts[..k] + ts[k..] == ts;
    }
  }

  lemma {:induction false} FirstGroup(pre: seq<byte>, group: seq<Token>, post: seq<byte>)
    requires ValidTokens(group) && |group| <= 8 && (post == [] || |group| == 8)
    ensures var head := pre + [FlagByte(group)] + PrintGroup(group);
      Parse(pre + ([FlagByte(group)] + PrintGroup(group) + post), |pre|) == group + Parse(head + post, |head|)
  {
    GroupParts(pre, FlagByte(group), PrintGroup(group), post);
    GroupRoundTrip(pre + [FlagByte(group)], group, post, 8);
  }

  lemma {:induction false} GroupParts(pre: seq<byte>, flags: byte, image: seq<byte>, post: seq<byte>)
    ensures pre + ([flags] + image + post) == (pre + [flags]) + image + post
    ensures (pre + ([flags] + image + post))[|pre|] == flags
  {
  }

  lemma {:induction false} HeaderParts(a: seq<byte>, b: seq<byte>, c: seq<byte>, d: seq<byte>, body: seq<byte>)
    ensures a + b + c + d + body == [] + a + (b + (c + d + body))
    ensures a + b + c + d + body == a + b + (c + d + body)
  {
  }

  lemma {:induction false} HeaderRoundTrip(ts: seq<Token>, rawSize: nat, magic: nat, crc: nat)
    requires ValidTokens(ts)
    requires |Print(ts)| + HEADER_SIZE < UINT32_RANGE && rawSize < UINT32_RANGE
    ensures var block := PrintBlock(ts, rawSize, magic, crc);
      CbSize(block) == |Print(ts)| + 12 && CbRawSize(block) == rawSize && InSize(block) == |block|
  {
    var block, cbSize := PrintBlock(ts, rawSize, magic, crc), |Print(ts)| + 12;
    var a, b := WriteLE(cbSize, 4), WriteLE(rawSize, 4);
    var tail := WriteLE(magic, 4) + WriteLE(crc, 4) + Print(ts);
    HeaderParts(a, b, WriteLE(magic, 4), WriteLE(crc, 4), Print(ts));
    assert Pow256(4) == UINT32_RANGE;
    ReadAfterWrite([], cbSize, 4, b + tail);
    ReadAfterWrite(a, rawSize, 4, tail);
  }

  /** Decompressing a printed block gives the expansion of its tokens cut to the header's size. */
  lemma {:induction false} RoundTrip(ts: seq<Token>, rawSize: nat, magic: nat, crc: nat)
    requires ValidTokens(ts)
    requires |Print(ts)| + HEADER_SIZE < UINT32_RANGE && rawSize < UINT32_RANGE
    ensures Tokens(PrintBlock(ts, rawSize, magic, crc)) == ts
    ensures var all := Expansion(ts);
      Decode(PrintBlock(ts, rawSize, magic, crc)) == all[..Min(rawSize, |all|)]
  {
    var block := PrintBlock(ts, rawSize, magic, crc);
    HeaderRoundTrip(ts, rawSize, magic, crc);
    var pre := block[..HEADER_SIZE];
    assert block[..InSize(block)] == block == pre + Print(ts);
    ParseRoundTrip(pre, ts);
  }

  lemma {:induction false} ApplyAllAppend(hist: seq<byte>, a: seq<Token>, b: seq<Token>)
    requires DICT_SIZE <= |hist|
    ensures ApplyAll(hist, a + b) == ApplyAll(ApplyAll(hist, a), b)
    decreases |a|
  {
    if a == [] {
      assert a + b == b;
    } else {
      assert a == [a[0]] + a[1..];
      Advance(hist, a, a[1..], b, a[0]);
      ApplyAllAppend(Apply(hist, a[0]), a[1..], b);
    }
  }

  /** Section 2 of [MS-OXRTFCP] ends a stream with a reference to the slot about to be written.
      The program does not look for that marker: it decodes it as zeros, and the header's
      uncompressed size cuts them off again. The same goes for any other last token. */
  lemma {:induction false} EndMarkerIsCutOff(ts: seq<Token>, marker: Token, magic: nat, crc: nat)
    requires ValidTokens(ts + [marker])
    requires |Print(ts + [marker])| + HEADER_SIZE < UINT32_RANGE && |Expansion(ts)| < UINT32_RANGE
    ensures Decode(PrintBlock(ts + [marker], |Expansion(ts)|, magic, crc)) == Expansion(ts)
  {
    var start := InitHistory();
    RoundTrip(ts + [marker], |Expansion(ts)|, magic, crc);
    ApplyAllAppend(start, ts, [marker]);
    assert ApplyAll(start, ts) <= ApplyAll(start, ts + [marker]);
  }
}
