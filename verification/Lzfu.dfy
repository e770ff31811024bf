/** Decompression of compressed RTF (src/lzfu.c), section 2 of [MS-OXRTFCP].

    The specification decodes tokens over an unbounded history; the method keeps
    the 4096-byte ring that the program keeps and is proved to refine it. */
module Lzfu {
  import opened Bytes
  import opened Common

  const DICT_SIZE := 4096
  const INIT_LENGTH := 207
  const HEADER_SIZE := 16

  datatype Token = Literal(c: byte) | Reference(offset: nat, length: nat)

  predicate ValidToken(t: Token) {
    t.Reference? ==> t.offset < DICT_SIZE && 2 <= t.length <= 17
  }

  function Length(t: Token): nat { if t.Literal? then 1 else t.length }

  function TotalLength(ts: seq<Token>): nat {
    if ts == [] then 0 else Length(ts[0]) + TotalLength(ts[1..])
  }

  // ---------- the initial dictionary ----------

  function InitText(): string {
    "{\\rtf1\\ansi\\mac\\deff0\\deftab720{\\fonttbl;}"
    + "{\\f0\\fnil \\froman \\fswiss \\fmodern \\fscrip"
    + "t \\fdecor MS Sans SerifSymbolArialTimes Ne"
    + "w RomanCourier{\\colortbl\\red0\\green0\\blue0"
    + "\r\n\\par \\pard\\plain\\f0\\fs20\\b\\i\\u\\tab"
    + "\\tx"
  }

  lemma {:induction false} InitTextLength()
    ensures |InitText()| == INIT_LENGTH
  {
  }

  /** The 207 octets copied into the dictionary before decoding starts. */
  function InitDict(): (d: seq<byte>)
    ensures |d| == INIT_LENGTH
  {
    InitTextLength();
    seq(INIT_LENGTH, i requires 0 <= i < INIT_LENGTH => InitText()[i] as int % 256)
  }

  /** What a reference can reach before anything has been decoded: the unused
      part of the ring counts as zeros that came before the initial dictionary. */
  function InitHistory(): (h: seq<byte>)
    ensures |h| == DICT_SIZE
  {
    seq(DICT_SIZE - INIT_LENGTH, i => 0) + InitDict()
  }

  // ---------- meaning of a token list over unbounded history ----------

  /** How far back a reference to ring slot `offset` reaches; 0 is the slot about to be written. */
  function Distance(historyLength: nat, offset: nat): (d: nat)
    ensures d < DICT_SIZE
  {
    (historyLength + INIT_LENGTH - offset) % DICT_SIZE
  }

  function CopyBack(hist: seq<byte>, d: nat, n: nat): seq<byte>
    requires d < DICT_SIZE <= |hist|
    decreases n
  {
    if n == 0 then hist
    else CopyBack(hist + [if d == 0 then 0 else hist[|hist| - d]], d, n - 1)
  }

  function Apply(hist: seq<byte>, t: Token): seq<byte>
    requires DICT_SIZE <= |hist|
  {
    match t
    case Literal(c) => hist + [c]
    case Reference(offset, length) => CopyBack(hist, Distance(|hist|, offset), length)
  }

  function ApplyAll(hist: seq<byte>, ts: seq<Token>): (r: seq<byte>)
    requires DICT_SIZE <= |hist|
    ensures |r| == |hist| + TotalLength(ts)
    ensures hist <= r
    decreases |ts|
  {
    if ts == [] then hist
    else
      ApplyShape(hist, ts[0]);
      ApplyAll(Apply(hist, ts[0]), ts[1..])
  }

  /** A reference is an LZ77 copy at one constant distance, reading bytes it has just
      written when the distance is shorter than the length. Distance 0 yields zeros. */
  lemma {:induction false} CopyBackIsLz77(hist: seq<byte>, d: nat, n: nat)
    requires d < DICT_SIZE <= |hist|
    ensures var r := CopyBack(hist, d, n);
      && |r| == |hist| + n
      && hist <= r
      && forall k :: |hist| <= k < |r| ==> r[k] == if d == 0 then 0 else r[k - d]
    decreases n
  {
    if n > 0 {
      var next := hist + [if d == 0 then 0 else hist[|hist| - d]];
      CopyBackIsLz77(next, d, n - 1);
      var r := CopyBack(hist, d, n);
      assert next <= r;
      assert r[|hist|] == next[|hist|];
      assert d > 0 ==> r[|hist| - d] == hist[|hist| - d];
    }
  }

  lemma {:induction false} ApplyShape(hist: seq<byte>, t: Token)
    requires DICT_SIZE <= |hist|
    ensures hist <= Apply(hist, t)
    ensures |Apply(hist, t)| == |hist| + Length(t)
  {
    if t.Reference? {
      CopyBackIsLz77(hist, Distance(|hist|, t.offset), t.length);
    }
  }

  /** The bytes that a token list stands for. */
  function Expansion(ts: seq<Token>): (r: seq<byte>)
    ensures |r| == TotalLength(ts)
  {
    ApplyAll(InitHistory(), ts)[DICT_SIZE..]
  }

  // ---------- which bytes a reference stands for ----------

  /** Byte q of the history belongs to ring slot (q + 207) % 4096. Byte p, the i-th of a reference to
      slot `offset`, repeats the last byte q that went to slot offset + i, and is 0 if that is the
      slot that p itself will go to. */
  lemma {:induction false} ReferenceReadsSlot(hist: seq<byte>, offset: nat, length: nat, i: nat, q: nat)
    requires 4096 <= |hist| && offset < 4096 && i < length
    requires q <= |hist| + i < q + 4096 && (q + 207) % 4096 == (offset + i) % 4096
    ensures var r, p := Apply(hist, Reference(offset, length)), |hist| + i;
      && |r| == |hist| + length && hist <= r
      && r[p] == if q < p then r[q] else 0
  {
    CopyBackIsLz77(hist, Distance(|hist|, offset), length);
    SlotIsDistance(|hist|, offset, i, q);
  }

  lemma {:induction false} SlotIsDistance(length: nat, offset: nat, i: nat, q: nat)
    requires offset < 4096 <= length && q <= length + i < q + 4096
    requires (q + 207) % 4096 == (offset + i) % 4096
    ensures length + i - q == Distance(length, offset)
  {
    var a, b := (q + 207) / 4096, (offset + i) / 4096;
    assert length + 207 - offset == (length + i - q) + 4096 * (a - b);
  }

  /** A reference into the first 207 slots takes its bytes from the initial dictionary, as long as
      these have not been overwritten. */
  lemma {:induction false} DictionaryIsRead(s: seq<byte>, offset: nat, length: nat)
    requires offset + length <= 207 && |s| < 3889 + offset
    ensures Apply(InitHistory() + s, Reference(offset, length)) == InitHistory() + s + InitDict()[offset..offset + length]
  {
    var hist, text := InitHistory() + s, InitDict()[offset..offset + length];
    var r := Apply(hist, Reference(offset, length));
    ApplyShape(hist, Reference(offset, length));
    forall i | 0 <= i < length ensures r[|hist| + i] == text[i] {
      ReferenceReadsSlot(hist, offset, length, i, 3889 + offset + i);
      InitAt(s, offset + i);
    }
    Extended(hist, text, r);
  }

  lemma {:induction false} InitAt(s: seq<byte>, k: nat)
    requires k < 207
    ensures (InitHistory() + s)[3889 + k] == InitDict()[k]
  {
  }

  lemma {:induction false} Extended(a: seq<byte>, b: seq<byte>, r: seq<byte>)
    requires a <= r && |r| == |a| + |b| && forall i :: 0 <= i < |b| ==> r[|a| + i] == b[i]
    ensures r == a + b
  {
    forall k | |a| <= k < |r| ensures r[k] == (a + b)[k] {
      assert r[|a| + (k - |a|)] == b[k - |a|];
    }
  }

  /** The shortest use of the dictionary: a block whose only token is a reference into it. */
  lemma {:induction false} DictionaryAlone(offset: nat, length: nat)
    requires offset + length <= 207
    ensures Expansion([Reference(offset, length)]) == InitDict()[offset..offset + length]
  {
    var ts := [Reference(offset, length)];
    assert InitHistory() + [] == InitHistory();
    DictionaryIsRead([], offset, length);
    assert ts[1..] == [];
  }

  // ---------- framing: flag bytes, literals, big-endian reference words ----------

  function ReferenceAt(body: seq<byte>, at: nat): (t: Token)
    requires at + 1 < |body|
    ensures ValidToken(t)
  {
    var word: int := 256 * (body[at] as int) + body[at + 1];
    Reference(word / 16, word % 16 + 2)
  }

  /** The offset is in the twelve high bits, counting from the first byte, and the length is two
      more than the four low bits. */
  lemma {:induction false} ReferenceBits(body: seq<byte>, at: nat, t: Token)
    requires at + 1 < |body| && t.Reference?
    ensures t == ReferenceAt(body, at) <==>
      t.length >= 2 && body[at] == t.offset / 16 && body[at + 1] == 16 * (t.offset % 16) + (t.length - 2) && t.length < 18
  {
    var word := 256 * (body[at] as int) + body[at + 1];
    assert word == 16 * (16 * (body[at] as int) + body[at + 1] / 16) + body[at + 1] % 16;
  }

  /** The tokens announced by the low `bits` bits of `flags`, and where reading stops.
      A bit whose token does not fit in what is left consumes nothing. */
  function ParseGroup(body: seq<byte>, at: nat, flags: nat, bits: nat): (r: (seq<Token>, nat))
    requires at <= |body|
    ensures at <= r.1 <= |body|
    decreases |body|, bits
  {
    if bits == 0 then ([], at)
    else if flags % 2 == 1 && at + 1 < |body| then
      var rest := ParseGroup(body, at + 2, flags / 2, bits - 1);
      ([ReferenceAt(body, at)] + rest.0, rest.1)
    else if flags % 2 == 0 && at < |body| then
      var rest := ParseGroup(body, at + 1, flags / 2, bits - 1);
      ([Literal(body[at])] + rest.0, rest.1)
    else
      ParseGroup(body, at, flags / 2, bits - 1)
  }

  /** Where a single byte is left, flags for references are passed over; the first other flag takes
      it as a literal. */
  lemma {:induction false} LastByte(body: seq<byte>, flags: nat, bits: nat)
    requires body != []
    ensures var at := |body| - 1;
      ParseGroup(body, at, flags, bits)
      == if flags % Pow2(bits) == Pow2(bits) - 1 then ([], at) else ([Literal(body[at])], |body|)
    decreases bits
  {
    if bits > 0 {
      LowestFlag(flags, Pow2(bits - 1));
      if flags % 2 == 1 {
        LastByte(body, flags / 2, bits - 1);
      } else {
        GroupAtEnd(body, flags / 2, bits - 1);
        assert [Literal(body[|body| - 1])] + [] == [Literal(body[|body| - 1])];
      }
    }
  }

  lemma {:induction false} LowestFlag(flags: nat, p: nat)
    requires p > 0
    ensures flags % (2 * p) == 2 * p - 1 <==> flags % 2 == 1 && flags / 2 % p == p - 1
  {
    HalfOfRemainder(flags, p);
  }

  function Parse(body: seq<byte>, at: nat): seq<Token>
    decreases |body| - at
  {
    if at >= |body| then []
    else
      var group := ParseGroup(body, at + 1, body[at], 8);
      group.0 + Parse(body, group.1)
  }

  /** An example: flags 2 announce a literal and a reference. With the initial dictionary they
      stand for A and the four bytes that rich text begins with. */
  lemma {:induction false} KnownBody(body: seq<byte>)
    requires body == [0x02, 0x41, 0x00, 0x02]
    ensures Parse(body, 0) == [Literal(0x41), Reference(0, 4)]
    ensures Expansion(Parse(body, 0)) == [0x41, 0x7b, 0x5c, 0x72, 0x74]
  {
    ReferenceBits(body, 2, Reference(0, 4));
    KnownGroup(body, body[0]);
    var first, ts := ParseGroup(body, 1, body[0], 8), [Literal(0x41), Reference(0, 4)];
    assert first.0 + [] == ts;
    KnownTokens(ts);
  }

  lemma {:induction false} KnownTokens(ts: seq<Token>)
    requires ts == [Literal(0x41), Reference(0, 4)]
    ensures Expansion(ts) == [0x41, 0x7b, 0x5c, 0x72, 0x74]
  {
    AfterLiteral(0x41, ts[1]);
    FirstOfDict();
    assert ts == [Literal(0x41), ts[1]];
  }

  lemma {:induction false} AfterLiteral(c: byte, t: Token)
    requires t.Reference? && t.offset + t.length <= 207
    ensures Expansion([Literal(c), t]) == [c] + InitDict()[t.offset..t.offset + t.length]
  {
    DictionaryIsRead([c], t.offset, t.length);
    LiteralFirst(InitHistory(), c, t, InitDict()[t.offset..t.offset + t.length]);
  }

  lemma {:induction false} LiteralFirst(hist: seq<byte>, c: byte, t: Token, text: seq<byte>)
    requires |hist| == DICT_SIZE && Apply(hist + [c], t) == hist + [c] + text
    ensures ApplyAll(hist, [Literal(c), t])[DICT_SIZE..] == [c] + text
  {
    TwoTokens(hist, [Literal(c), t]);
    Behind(hist, [c] + text);
    Associates(hist, [c], text);
  }

  lemma {:induction false} TwoTokens(hist: seq<byte>, ts: seq<Token>)
    requires DICT_SIZE <= |hist| && |ts| == 2
    ensures DICT_SIZE <= |Apply(hist, ts[0])|
    ensures ApplyAll(hist, ts) == Apply(Apply(hist, ts[0]), ts[1])
  {
    ApplyShape(hist, ts[0]);
    assert ts[1..][1..] == [];
  }

  lemma {:induction false} Behind(hist: seq<byte>, s: seq<byte>)
    requires |hist| == DICT_SIZE
    ensures (hist + s)[DICT_SIZE..] == s
  {
  }

  lemma {:induction false} KnownGroup(body: seq<byte>, flags: nat)
    requires |body| == 4 && flags == 2
    ensures ParseGroup(body, 1, flags, 8) == ([Literal(body[1]), ReferenceAt(body, 2)], 4)
  {
    var one, none := flags / 2, flags / 2 / 2;
    GroupAtEnd(body, none, 6);
    var rest := ParseGroup(body, 4, none, 6);
    var two := ParseGroup(body, 2, one, 7);
    assert rest == ([], 4);
    assert one % 2 == 1 && two.0 == [ReferenceAt(body, 2)] + rest.0 == [ReferenceAt(body, 2)];
    assert two == ([ReferenceAt(body, 2)], 4);
    assert [Literal(body[1])] + two.0 == [Literal(body[1]), ReferenceAt(body, 2)];
  }

  lemma {:induction false} GroupAtEnd(body: seq<byte>, flags: nat, bits: nat)
    ensures ParseGroup(body, |body|, flags, bits) == ([], |body|)
    decreases bits
  {
    if bits > 0 { GroupAtEnd(body, flags / 2, bits - 1); }
  }

  lemma {:induction false} FirstOfDict()
    ensures InitDict()[0..4] == [0x7b, 0x5c, 0x72, 0x74]
  {
    assert "{\\rt" <= InitText();
    assert InitText()[0] == '{' && InitText()[1] == '\\' && InitText()[2] == 'r' && InitText()[3] == 't';
  }

  // ---------- the whole block ----------

  function CbSize(input: seq<byte>): nat
    requires HEADER_SIZE <= |input|
  {
    ReadLE(input, 0, 4)
  }

  function CbRawSize(input: seq<byte>): nat
    requires HEADER_SIZE <= |input|
  {
    ReadLE(input, 4, 4)
  }

  /** Bytes that take part in decoding; the sum is a uint32_t sum. */
  function InSize(input: seq<byte>): (n: nat)
    requires HEADER_SIZE <= |input|
    ensures n <= |input|
  {
    Min((CbSize(input) + 4) % UINT32_RANGE, |input|)
  }

  /** The first two numbers of the header: how long the rest of the block is, and how long its
      text. The sum is a sum of 32 bits. */
  lemma {:induction false} HeaderSizes(input: seq<byte>, rest: nat, text: nat)
    requires HEADER_SIZE <= |input|
    requires rest == input[0] + 0x100 * (input[1] as int) + 0x1_0000 * (input[2] as int) + 0x100_0000 * (input[3] as int)
    requires text == input[4] + 0x100 * (input[5] as int) + 0x1_0000 * (input[6] as int) + 0x100_0000 * (input[7] as int)
    ensures CbRawSize(input) == text
    ensures InSize(input) == Min(if rest < 0xffff_fffc then rest + 4 else rest - 0xffff_fffc, |input|)
  {
    FourBytes(input, 0);
    FourBytes(input, 4);
  }

  function Tokens(input: seq<byte>): seq<Token>
    requires HEADER_SIZE <= |input|
  {
    Parse(input[..InSize(input)], HEADER_SIZE)
  }

  /** The decode of a block: the expansion of its tokens, cut to the size its header
      announces. The allocation cap of the program does not occur here. */
  function Decode(input: seq<byte>): seq<byte>
    requires HEADER_SIZE <= |input|
  {
    var all := Expansion(Tokens(input));
    all[..Min(CbRawSize(input), |all|)]
  }

  // ---------- the expansion bound ----------

  lemma {:induction false} TotalLengthAppend(a: seq<Token>, b: seq<Token>)
    ensures TotalLength(a + b) == TotalLength(a) + TotalLength(b)
  {
    if a == [] {
      assert a + b == b;
    } else {
      TotalLengthAppend(a[1..], b);
      assert (a + b)[1..] == a[1..] + b;
    }
  }

  lemma {:induction false} GroupBound(body: seq<byte>, at: nat, flags: nat, bits: nat)
    requires at <= |body|
    ensures var r := ParseGroup(body, at, flags, bits); 2 * TotalLength(r.0) <= 17 * (r.1 - at)
    decreases bits
  {
    if bits > 0 {
      if flags % 2 == 1 && at + 1 < |body| {
        GroupBound(body, at + 2, flags / 2, bits - 1);
      } else if flags % 2 == 0 && at < |body| {
        GroupBound(body, at + 1, flags / 2, bits - 1);
      } else {
        GroupBound(body, at, flags / 2, bits - 1);
      }
    }
  }

  lemma {:induction false} ParseBound(body: seq<byte>, at: nat)
    requires at <= |body|
    ensures 2 * TotalLength(Parse(body, at)) <= 17 * (|body| - at)
    decreases |body| - at
  {
    if at < |body| {
      var group := ParseGroup(body, at + 1, body[at], 8);
      GroupBound(body, at + 1, body[at], 8);
      ParseBound(body, group.1);
      TotalLengthAppend(group.0, Parse(body, group.1));
    }
  }

  /** The output cap 17 * compsize + 16 never cuts anything that the header's own size keeps. */
  lemma {:induction false} CapNeverTruncates(input: seq<byte>)
    requires HEADER_SIZE <= |input|
    ensures 2 * |Expansion(Tokens(input))| <= 17 * |input|
    ensures |Decode(input)| <= 17 * |input| + 16
  {
    BoundFrom(input[..InSize(input)], HEADER_SIZE);
  }

  lemma {:induction false} BoundFrom(body: seq<byte>, at: nat)
    ensures 2 * TotalLength(Parse(body, at)) <= 17 * |body|
  {
    if at < |body| { ParseBound(body, at); }
  }

  lemma {:induction false} CappedIsDecode(input: seq<byte>, outSize: nat)
    requires HEADER_SIZE <= |input| && outSize == Min(CbRawSize(input), 17 * |input| + 16)
    ensures var all := Expansion(Tokens(input));
      all[..Min(|all|, outSize)] == Decode(input)
  {
    CapNeverTruncates(input);
  }

  // ---------- the ring ----------

  /** Distance from slot j back from the write slot w. */
  function Back(w: nat, j: nat): int { if j < w then w - j else w - j + DICT_SIZE }

  /** The ring holds the last 4095 bytes of the history and a zero in the write slot. */
  predicate RingHolds(dict: seq<byte>, w: nat, hist: seq<byte>) {
    && |dict| == DICT_SIZE <= |hist|
    && w == (|hist| + INIT_LENGTH) % DICT_SIZE
    && dict[w] == 0
    && forall j :: 0 <= j < DICT_SIZE && j != w ==> dict[j] == hist[|hist| - Back(w, j)]
  }

  lemma {:induction false} RingInitially(dict: seq<byte>)
    requires |dict| == DICT_SIZE
    requires dict[..INIT_LENGTH] == InitDict()
    requires forall j :: INIT_LENGTH <= j < DICT_SIZE ==> dict[j] == 0
    ensures RingHolds(dict, INIT_LENGTH, InitHistory())
  {
    var hist := InitHistory();
    forall j | 0 <= j < DICT_SIZE && j != INIT_LENGTH
      ensures dict[j] == hist[|hist| - Back(INIT_LENGTH, j)]
    {
      if j < INIT_LENGTH {
        assert dict[j] == dict[..INIT_LENGTH][j];
      }
    }
  }

  /** Storing a byte, advancing the write slot and clearing it appends to the history. */
  lemma {:induction false} RingPush(dict: seq<byte>, w: nat, hist: seq<byte>, c: byte)
    requires RingHolds(dict, w, hist)
    ensures var w' := (w + 1) % DICT_SIZE;
      RingHolds(dict[w := c][w' := 0], w', hist + [c])
  {
    var w' := (w + 1) % DICT_SIZE;
    var dict', hist' := dict[w := c][w' := 0], hist + [c];
    forall j | 0 <= j < DICT_SIZE && j != w'
      ensures dict'[j] == hist'[|hist'| - Back(w', j)]
    {
      if j == w {
        assert Back(w', j) == 1;
      } else {
        assert Back(w', j) == Back(w, j) + 1;
      }
    }
  }

  /** The i-th byte of a reference is read at the same distance as the first. */
  lemma {:induction false} RingRead(dict: seq<byte>, w: nat, hist: seq<byte>, offset: nat, i: nat, d: nat)
    requires RingHolds(dict, w, hist)
    requires offset < DICT_SIZE && i <= |hist| && d == Distance(|hist| - i, offset)
    ensures dict[(offset + i) % DICT_SIZE] == if d == 0 then 0 else hist[|hist| - d]
  {
    var k := (offset + i) % DICT_SIZE;
    assert d == (|hist| - i + INIT_LENGTH - offset) % DICT_SIZE;
    if k == w {
      assert d == 0;
    } else {
      assert d == Back(w, k);
    }
  }

  /** C's `flags & mask` for a mask of one bit. */
  predicate Flagged(flags: byte, mask: int) {
    match mask
    case 1 => flags % 2 == 1
    case 2 => flags / 2 % 2 == 1
    case 4 => flags / 4 % 2 == 1
    case 8 => flags / 8 % 2 == 1
    case 16 => flags / 16 % 2 == 1
    case 32 => flags / 32 % 2 == 1
    case 64 => flags / 64 % 2 == 1
    case _ => flags / 128 % 2 == 1
  }

  /** `bits` rounds of the flag loop remain: the mask that C shifts left out of an
      unsigned char, and the flags still to be looked at. */
  predicate FlagState(flags: byte, mask: int, bits: nat, rest: nat) {
    match bits
    case 0 => mask == 0
    case 1 => mask == 128 && rest == flags / 128
    case 2 => mask == 64 && rest == flags / 64
    case 3 => mask == 32 && rest == flags / 32
    case 4 => mask == 16 && rest == flags / 16
    case 5 => mask == 8 && rest == flags / 8
    case 6 => mask == 4 && rest == flags / 4
    case 7 => mask == 2 && rest == flags / 2
    case _ => bits == 8 && mask == 1 && rest == flags
  }

  lemma {:induction false} FlagStep(flags: byte, mask: int, bits: nat, rest: nat)
    requires bits > 0 && FlagState(flags, mask, bits, rest)
    ensures Flagged(flags, mask) == (rest % 2 == 1)
    ensures FlagState(flags, mask * 2 % 256, bits - 1, rest / 2)
  {
  }

  // ---------- pst_lzfu_decompress ----------

  /** The decoder's buffers agree with the history: the ring holds its tail, and the
      output buffer its first bytes after the initial dictionary, as far as they fit. */
  predicate Synced(dict: seq<byte>, dictLength: nat, out: seq<byte>, outPtr: nat, outSize: nat, hist: seq<byte>) {
    && RingHolds(dict, dictLength, hist)
    && outPtr == Min(|hist| - DICT_SIZE, outSize) <= |out|
    && out[..outPtr] == hist[DICT_SIZE..DICT_SIZE + outPtr]
  }

  method Emit(c: byte, dict: array<byte>, dictLength: nat, out: array<byte>, outPtr: nat, outSize: nat,
              ghost hist: seq<byte>)
    returns (dictLength': nat, outPtr': nat)
    requires dict != out && outSize <= out.Length
    requires Synced(dict[..], dictLength, out[..], outPtr, outSize, hist)
    modifies dict, out
    ensures Synced(dict[..], dictLength', out[..], outPtr', outSize, hist + [c])
  {
    RingPush(dict[..], dictLength, hist, c);
    ghost var before := dict[..];
    dict[dictLength] := c;
    dictLength' := (dictLength + 1) % DICT_SIZE;
    outPtr' := outPtr;
    if outPtr < outSize {
      out[outPtr] := c;
      outPtr' := outPtr + 1;
    }
    dict[dictLength'] := 0;
    assert dict[..] == before[dictLength := c][dictLength' := 0];
  }

  lemma {:induction false} CopyBackStep(hist: seq<byte>, d: nat, n: nat, c: byte)
    requires d < DICT_SIZE <= |hist| && n > 0 && c == if d == 0 then 0 else hist[|hist| - d]
    ensures CopyBack(hist, d, n) == CopyBack(hist + [c], d, n - 1)
  {
  }

  method EmitReference(offset: nat, length: nat, dict: array<byte>, dictLength: nat,
                       out: array<byte>, outPtr: nat, outSize: nat, ghost hist: seq<byte>)
    returns (dictLength': nat, outPtr': nat)
    requires offset < DICT_SIZE
    requires dict != out && outSize <= out.Length
    requires Synced(dict[..], dictLength, out[..], outPtr, outSize, hist)
    modifies dict, out
    ensures Synced(dict[..], dictLength', out[..], outPtr', outSize, Apply(hist, Reference(offset, length)))
  {
    dictLength', outPtr' := dictLength, outPtr;
    ghost var d, h := Distance(|hist|, offset), hist;
    var i: nat := 0;
    while i < length
      invariant i <= length && |h| == |hist| + i
      invariant Synced(dict[..], dictLength', out[..], outPtr', outSize, h)
      invariant CopyBack(h, d, length - i) == CopyBack(hist, d, length)
    {
      RingRead(dict[..], dictLength', h, offset, i, d);
      var c1 := dict[(offset + i) % DICT_SIZE];
      CopyBackStep(h, d, length - i, c1);
      dictLength', outPtr' := Emit(c1, dict, dictLength', out, outPtr', outSize, h);
      h := h + [c1];
      i := i + 1;
    }
  }

  /** One round of the flag loop: the token that the flag announces, if it fits. */
  method DecodeToken(input: seq<byte>, inPtr: nat, inSize: nat, flag: bool, dict: array<byte>, dictLength: nat,
                     out: array<byte>, outPtr: nat, outSize: nat, ghost hist: seq<byte>)
    returns (inPtr': nat, dictLength': nat, outPtr': nat, ghost hist': seq<byte>)
    requires inPtr <= inSize <= |input|
    requires dict != out && outSize <= out.Length
    requires Synced(dict[..], dictLength, out[..], outPtr, outSize, hist)
    modifies dict, out
    ensures Synced(dict[..], dictLength', out[..], outPtr', outSize, hist')
    ensures (inPtr', hist') ==
      var body := input[..inSize];
      if flag && inPtr + 1 < inSize then (inPtr + 2, Apply(hist, ReferenceAt(body, inPtr)))
      else if !flag && inPtr < inSize then (inPtr + 1, Apply(hist, Literal(body[inPtr])))
      else (inPtr, hist)
  {
    inPtr', dictLength', outPtr', hist' := inPtr, dictLength, outPtr, hist;
    if flag {
      if inPtr + 1 < inSize {
        var word: nat := 256 * (input[inPtr] as int) + input[inPtr + 1];
        inPtr' := inPtr + 2;
        var offset, length := word / 16, word % 16 + 2;
        assert Reference(offset, length) == ReferenceAt(input[..inSize], inPtr);
        dictLength', outPtr' := EmitReference(offset, length, dict, dictLength, out, outPtr, outSize, hist);
        hist' := Apply(hist, Reference(offset, length));
      }
    } else {
      if inPtr < inSize {
        var c1 := input[inPtr];
        inPtr' := inPtr + 1;
        dictLength', outPtr' := Emit(c1, dict, dictLength, out, outPtr, outSize, hist);
        hist' := hist + [c1];
      }
    }
  }

  /** What is left to decode after one round of the flag loop. */
  lemma {:induction false} GroupStep(body: seq<byte>, at: nat, rest: nat, bits: nat, hist: seq<byte>, later: seq<Token>,
                  at': nat, hist': seq<byte>)
    requires DICT_SIZE <= |hist| && at <= |body| && bits > 0
    requires (at', hist') ==
      if rest % 2 == 1 && at + 1 < |body| then (at + 2, Apply(hist, ReferenceAt(body, at)))
      else if rest % 2 == 0 && at < |body| then (at + 1, Apply(hist, Literal(body[at])))
      else (at, hist)
    ensures at' <= |body| && DICT_SIZE <= |hist'|
    ensures ParseGroup(body, at', rest / 2, bits - 1).1 == ParseGroup(body, at, rest, bits).1
    ensures ApplyAll(hist', ParseGroup(body, at', rest / 2, bits - 1).0 + later)
         == ApplyAll(hist, ParseGroup(body, at, rest, bits).0 + later)
  {
    var group, group' := ParseGroup(body, at, rest, bits).0, ParseGroup(body, at', rest / 2, bits - 1).0;
    if rest % 2 == 1 && at + 1 < |body| {
      Advance(hist, group, group', later, ReferenceAt(body, at));
    } else if rest % 2 == 0 && at < |body| {
      Advance(hist, group, group', later, Literal(body[at]));
    }
  }

  /** One round of the flag loop, with what is left to decode after it. */
  method DecodeFlag(input: seq<byte>, inPtr: nat, inSize: nat, flag: bool, dict: array<byte>, dictLength: nat,
                    out: array<byte>, outPtr: nat, outSize: nat, ghost hist: seq<byte>, ghost later: seq<Token>,
                    ghost rest: nat, ghost bits: nat)
    returns (inPtr': nat, dictLength': nat, outPtr': nat, ghost hist': seq<byte>)
    requires inPtr <= inSize <= |input| && bits > 0 && flag == (rest % 2 == 1)
    requires dict != out && outSize <= out.Length
    requires Synced(dict[..], dictLength, out[..], outPtr, outSize, hist)
    modifies dict, out
    ensures Synced(dict[..], dictLength', out[..], outPtr', outSize, hist') && inPtr' <= inSize
    ensures ParseGroup(input[..inSize], inPtr', rest / 2, bits - 1).1 == ParseGroup(input[..inSize], inPtr, rest, bits).1
    ensures ApplyAll(hist', ParseGroup(input[..inSize], inPtr', rest / 2, bits - 1).0 + later)
         == ApplyAll(hist, ParseGroup(input[..inSize], inPtr, rest, bits).0 + later)
  {
    inPtr', dictLength', outPtr', hist' :=
      DecodeToken(input, inPtr, inSize, flag, dict, dictLength, out, outPtr, outSize, hist);
    GroupStep(input[..inSize], inPtr, rest, bits, hist, later, inPtr', hist');
  }

  /** The eight rounds of the flag loop. */
  method DecodeGroup(input: seq<byte>, inPtr: nat, inSize: nat, flags: byte, dict: array<byte>, dictLength: nat,
                     out: array<byte>, outPtr: nat, outSize: nat, ghost hist: seq<byte>, ghost later: seq<Token>)
    returns (inPtr': nat, dictLength': nat, outPtr': nat, ghost hist': seq<byte>)
    requires inPtr <= inSize <= |input|
    requires dict != out && outSize <= out.Length
    requires Synced(dict[..], dictLength, out[..], outPtr, outSize, hist)
    modifies dict, out
    ensures Synced(dict[..], dictLength', out[..], outPtr', outSize, hist')
    ensures inPtr' == ParseGroup(input[..inSize], inPtr, flags, 8).1
    ensures ApplyAll(hist', later) == ApplyAll(hist, ParseGroup(input[..inSize], inPtr, flags, 8).0 + later)
  {
    ghost var body := input[..inSize];
    inPtr', dictLength', outPtr', hist' := inPtr, dictLength, outPtr, hist;
    var flagMask: int := 1;
    ghost var bits: nat, rest: nat := 8, flags;
    ghost var all := ParseGroup(body, inPtr, flags, 8);
    ghost var goal := ApplyAll(hist, all.0 + later);
    while flagMask != 0
      invariant FlagState(flags, flagMask, bits, rest)
      invariant inPtr' <= inSize
      invariant Synced(dict[..], dictLength', out[..], outPtr', outSize, hist')
      invariant ParseGroup(body, inPtr', rest, bits).1 == all.1
      invariant ApplyAll(hist', ParseGroup(body, inPtr', rest, bits).0 + later)
             == goal
      decreases bits
    {
      FlagStep(flags, flagMask, bits, rest);
      inPtr', dictLength', outPtr', hist' :=
        DecodeFlag(input, inPtr', inSize, Flagged(flags, flagMask), dict, dictLength', out, outPtr', outSize, hist',
                   later, rest, bits);
      flagMask := flagMask * 2 % 256;
      bits, rest := bits - 1, rest / 2;
    }
    assert ParseGroup(body, inPtr', rest, bits).0 + later == later;
  }

  /** Decoding the first token of a group leaves the rest of the group to decode. */
  lemma {:induction false} Advance(hist: seq<byte>, group: seq<Token>, group': seq<Token>, later: seq<Token>, t: Token)
    requires DICT_SIZE <= |hist| && group == [t] + group'
    ensures DICT_SIZE <= |Apply(hist, t)|
    ensures ApplyAll(hist, group + later) == ApplyAll(Apply(hist, t), group' + later)
  {
    ApplyShape(hist, t);
    assert group + later == [t] + (group' + later);
    assert (group + later)[1..] == group' + later;
  }

  method InitialRing() returns (dict: array<byte>)
    ensures fresh(dict) && RingHolds(dict[..], INIT_LENGTH, InitHistory())
  {
    var text := InitDict();
    dict := new byte[DICT_SIZE](i requires 0 <= i < DICT_SIZE => if i < |text| then text[i] else 0);
    RingInitially(dict[..]);
  }

  method DecodeBody(input: seq<byte>, inSize: nat, dict: array<byte>, out: array<byte>, outSize: nat)
    returns (outPtr: nat)
    requires inSize <= |input|
    requires dict != out && outSize <= out.Length && RingHolds(dict[..], INIT_LENGTH, InitHistory())
    modifies dict, out
    ensures var all := Expansion(Parse(input[..inSize], HEADER_SIZE));
      outPtr == Min(|all|, outSize) <= out.Length && out[..outPtr] == all[..outPtr]
  {
    var dictLength: nat, inPtr: nat := INIT_LENGTH, HEADER_SIZE;
    outPtr := 0;
    ghost var body, hist := input[..inSize], InitHistory();
    while inPtr < inSize
      invariant inPtr == HEADER_SIZE || inPtr <= inSize
      invariant Synced(dict[..], dictLength, out[..], outPtr, outSize, hist)
      invariant ApplyAll(hist, Parse(body, inPtr)) == ApplyAll(InitHistory(), Parse(body, HEADER_SIZE))
    {
      var flags := input[inPtr];
      ghost var later := Parse(body, ParseGroup(body, inPtr + 1, flags, 8).1);
      inPtr, dictLength, outPtr, hist :=
        DecodeGroup(input, inPtr + 1, inSize, flags, dict, dictLength, out, outPtr, outSize, hist, later);
    }
    assert Parse(body, inPtr) == [];
  }

  method Decompress(rtfcomp: array?<byte>, compsize: nat) returns (result: array?<byte>, size: nat)
    requires rtfcomp != null ==> compsize <= rtfcomp.Length
    requires compsize < UINT32_RANGE - 1
    ensures rtfcomp == null || compsize < HEADER_SIZE ==> result == null && size == 0
    ensures rtfcomp != null && HEADER_SIZE <= compsize ==>
      && result != null && size <= result.Length
      && result[..size] == Decode(rtfcomp[..compsize])
  {
    if rtfcomp == null || compsize < HEADER_SIZE {
      return null, 0;
    }
    var input := rtfcomp[..compsize];
    var dict := InitialRing();
    var outSize := CbRawSize(input);
    var maxOut := compsize * 17 + 16;
    if outSize > maxOut { outSize := maxOut; }
    var out := new byte[if outSize != 0 then outSize else 1];
    size := DecodeBody(input, InSize(input), dict, out, outSize);
    CappedIsDecode(input, outSize);
    result := out;
  }
}
