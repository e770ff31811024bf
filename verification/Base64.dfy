/** The base64 encoder (src/libstrfunc.c): section 4 of RFC 4648, in lines of 76 characters
    as in section 6.8 of RFC 2045. */
module Base64 {
  import opened Bytes
  import opened Common

  const LINE_LENGTH := 76

  // ---------- the alphabet ----------

  function CodeChar(i: nat): char
    requires i < 64
  {
    if i < 26 then 'A' + i as char
    else if i < 52 then 'a' + (i - 26) as char
    else if i < 62 then '0' + (i - 52) as char
    else if i == 62 then '+' else '/'
  }

  predicate IsCode(c: char) {
    'A' <= c <= 'Z' || 'a' <= c <= 'z' || '0' <= c <= '9' || c == '+' || c == '/'
  }

  function CodeValue(c: char): (i: nat)
    requires IsCode(c)
    ensures i < 64
  {
    if 'A' <= c <= 'Z' then c as int - 'A' as int
    else if 'a' <= c <= 'z' then c as int - 'a' as int + 26
    else if '0' <= c <= '9' then c as int - '0' as int + 52
    else if c == '+' then 62 else 63
  }

  lemma {:induction false} CodeRoundTrip(i: nat)
    requires i < 64
    ensures IsCode(CodeChar(i)) && CodeValue(CodeChar(i)) == i
  {
  }

  /** The codes of the 64 characters in ASCII: letters from 65 and 97, digits from 48, + and /. */
  lemma {:induction false} CodeTable(i: nat)
    requires i < 64
    ensures CodeChar(i) as int
         == if i < 26 then 65 + i else if i < 52 then 97 + (i - 26) else if i < 62 then 48 + (i - 52)
            else if i == 62 then 43 else 47
  {
  }

  // ---------- one-shot encoding and decoding ----------

  function Quad3(x: byte, y: byte, z: byte): (s: string)
    ensures |s| == 4
  {
    [CodeChar(x / 4), CodeChar(x % 4 * 16 + y / 16), CodeChar(y % 16 * 4 + z / 64), CodeChar(z % 64)]
  }

  function Quad2(x: byte, y: byte): (s: string)
    ensures |s| == 4
  {
    [CodeChar(x / 4), CodeChar(x % 4 * 16 + y / 16), CodeChar(y % 16 * 4), '=']
  }

  function Quad1(x: byte): (s: string)
    ensures |s| == 4
  {
    [CodeChar(x / 4), CodeChar(x % 4 * 16), '=', '=']
  }

  /** The encoding without line breaks. */
  function Encode(data: seq<byte>): (s: string)
    ensures |s| == (|data| + 2) / 3 * 4
  {
    match |data|
    case 0 => ""
    case 1 => Quad1(data[0])
    case 2 => Quad2(data[0], data[1])
    case _ => Quad3(data[0], data[1], data[2]) + Encode(data[3..])
  }

  /** A decoder written from the RFC; none on anything that is not an encoding. */
  function DecodeQuad(a: char, b: char, c: char, d: char): Option<seq<byte>>
  {
    if !IsCode(a) || !IsCode(b) then None
    else
      var first: int := CodeValue(a) * 4 + CodeValue(b) / 16;
      if c == '=' && d == '=' then
        if CodeValue(b) % 16 == 0 then Some([first]) else None
      else if !IsCode(c) then None
      else
        var second: int := CodeValue(b) % 16 * 16 + CodeValue(c) / 4;
        if d == '=' then
          if CodeValue(c) % 4 == 0 then Some([first, second]) else None
        else if !IsCode(d) then None
        else
          var third: int := CodeValue(c) % 4 * 64 + CodeValue(d);
          Some([first, second, third])
  }

  function Decode(s: string): Option<seq<byte>> {
    if s == "" then Some([])
    else if |s| < 4 then None
    else
      match DecodeQuad(s[0], s[1], s[2], s[3])
      case None => None
      case Some(head) =>
        if |s| > 4 && |head| < 3 then None
        else
          match Decode(s[4..])
          case None => None
          case Some(tail) => Some(head + tail)
  }

  lemma {:induction false} Quad3RoundTrip(x: byte, y: byte, z: byte)
    ensures var s := Quad3(x, y, z); DecodeQuad(s[0], s[1], s[2], s[3]) == Some([x, y, z])
  {
    var a: nat, b: nat, c: nat, d: nat := x / 4, x % 4 * 16 + y / 16, y % 16 * 4 + z / 64, z % 64;
    assert b / 16 == x % 4 && b % 16 == y / 16;
    assert c / 4 == y % 16 && c % 4 == z / 64;
    CodeRoundTrip(a);
    CodeRoundTrip(b);
    CodeRoundTrip(c);
    CodeRoundTrip(d);
    FullQuad(CodeChar(a), CodeChar(b), CodeChar(c), CodeChar(d), x, y, z);
  }

  lemma {:induction false} FullQuad(a: char, b: char, c: char, d: char, x: byte, y: byte, z: byte)
    requires IsCode(a) && IsCode(b) && IsCode(c) && IsCode(d)
    requires CodeValue(a) * 4 + CodeValue(b) / 16 == x
    requires CodeValue(b) % 16 * 16 + CodeValue(c) / 4 == y
    requires CodeValue(c) % 4 * 64 + CodeValue(d) == z
    ensures DecodeQuad(a, b, c, d) == Some([x, y, z])
  {
  }

  lemma {:induction false} Quad2RoundTrip(x: byte, y: byte)
    ensures var s := Quad2(x, y); DecodeQuad(s[0], s[1], s[2], s[3]) == Some([x, y])
  {
    var a: nat, b: nat, c: nat := x / 4, x % 4 * 16 + y / 16, y % 16 * 4;
    assert b / 16 == x % 4 && b % 16 == y / 16;
    assert c / 4 == y % 16 && c % 4 == 0;
    CodeRoundTrip(a);
    CodeRoundTrip(b);
    CodeRoundTrip(c);
    ShortQuad(CodeChar(a), CodeChar(b), CodeChar(c), x, y);
  }

  lemma {:induction false} ShortQuad(a: char, b: char, c: char, x: byte, y: byte)
    requires IsCode(a) && IsCode(b) && IsCode(c) && CodeValue(c) % 4 == 0
    requires CodeValue(a) * 4 + CodeValue(b) / 16 == x
    requires CodeValue(b) % 16 * 16 + CodeValue(c) / 4 == y
    ensures DecodeQuad(a, b, c, '=') == Some([x, y])
  {
  }

  lemma {:induction false} Quad1RoundTrip(x: byte)
    ensures var s := Quad1(x); DecodeQuad(s[0], s[1], s[2], s[3]) == Some([x])
  {
    CodeRoundTrip(x / 4);
    CodeRoundTrip(x % 4 * 16);
  }

  lemma {:induction false} DecodeOnward(quad: string, rest: string, head: seq<byte>, tail: seq<byte>)
    requires |quad| == 4 && DecodeQuad(quad[0], quad[1], quad[2], quad[3]) == Some(head) && |head| == 3
    requires Decode(rest) == Some(tail)
    ensures Decode(quad + rest) == Some(head + tail)
  {
    assert (quad + rest)[4..] == rest;
  }

  lemma {:induction false} DecodeLast(quad: string, head: seq<byte>)
    requires |quad| == 4 && DecodeQuad(quad[0], quad[1], quad[2], quad[3]) == Some(head)
    ensures Decode(quad) == Some(head)
  {
    assert quad[4..] == "" && head + [] == head;
  }

  lemma {:induction false} EncodeRoundTrip(data: seq<byte>)
    ensures Decode(Encode(data)) == Some(data)
  {
    match |data| {
      case 0 =>
      case 1 =>
        Quad1RoundTrip(data[0]);
        assert data == [data[0]];
        DecodeLast(Quad1(data[0]), data);
      case 2 =>
        Quad2RoundTrip(data[0], data[1]);
        assert data == [data[0], data[1]];
        DecodeLast(Quad2(data[0], data[1]), data);
      case _ =>
        var head, tail := data[..3], data[3..];
        assert head == [data[0], data[1], data[2]] && head + tail == data;
        EncodeRoundTrip(tail);
        Quad3RoundTrip(data[0], data[1], data[2]);
        DecodeOnward(Quad3(data[0], data[1], data[2]), Encode(tail), head, tail);
    }
  }

  /** The 24 bits of a group, the first byte and the first character on the left. */
  lemma {:induction false} GroupBits(x: byte, y: byte, z: byte, v: nat)
    requires v == 0x1_0000 * x as int + 0x100 * y as int + z
    ensures Encode([x, y, z]) == [CodeChar(v / 0x4_0000), CodeChar(v / 0x1000 % 64), CodeChar(v / 0x40 % 64), CodeChar(v % 64)]
  {
    var a: nat, b: nat, c: nat, d: nat := x / 4, x % 4 * 16 + y / 16, y % 16 * 4 + z / 64, z % 64;
    SixBits(a, b, c, d, v);
    assert [x, y, z][3..] == [] && Encode([x, y, z]) == Quad3(x, y, z) + [] == Quad3(x, y, z);
  }

  lemma {:induction false} SixBits(a: nat, b: nat, c: nat, d: nat, v: nat)
    requires b < 64 && c < 64 && d < 64 && v == 0x40 * (0x40 * (0x40 * a + b) + c) + d
    ensures v / 0x4_0000 == a && v / 0x1000 % 64 == b && v / 0x40 % 64 == c && v % 64 == d
  {
    assert v / 0x40 == 0x40 * (0x40 * a + b) + c && v / 0x1000 == 0x40 * a + b;
  }

  /** Three of the test vectors in section 10 of RFC 4648. */
  lemma {:induction false} TestVectors(f: seq<byte>, fo: seq<byte>, foo: seq<byte>)
    requires f == [0x66] && fo == [0x66, 0x6f] && foo == [0x66, 0x6f, 0x6f]
    ensures Encode(f) == "Zg==" && Encode(fo) == "Zm8=" && Encode(foo) == "Zm9v"
  {
    assert foo[3..] == [];
  }

  /** Encodings are made of code characters and '='; in particular no newline and no NUL. */
  lemma {:induction false} EncodeAlphabet(data: seq<byte>)
    ensures forall k :: 0 <= k < |Encode(data)| ==> IsCode(Encode(data)[k]) || Encode(data)[k] == '='
  {
    match |data| {
      case 0 =>
      case 1 => CodeRoundTrip(data[0] / 4); CodeRoundTrip(data[0] % 4 * 16);
      case 2 =>
        CodeRoundTrip(data[0] / 4);
        CodeRoundTrip(data[0] % 4 * 16 + data[1] / 16);
        CodeRoundTrip(data[1] % 16 * 4);
      case _ =>
        var x, y, z := data[0], data[1], data[2];
        CodeRoundTrip(x / 4);
        CodeRoundTrip(x % 4 * 16 + y / 16);
        CodeRoundTrip(y % 16 * 4 + z / 64);
        CodeRoundTrip(z % 64);
        EncodeAlphabet(data[3..]);
    }
  }

  /** Whole groups of three can be encoded separately. */
  lemma {:induction false} EncodeSplits(a: seq<byte>, b: seq<byte>)
    requires |a| % 3 == 0
    ensures Encode(a + b) == Encode(a) + Encode(b)
  {
    if a == [] {
      assert a + b == b;
    } else {
      EncodeSplits(a[3..], b);
      WithoutGroup(a, b);
      Associates(Quad3(a[0], a[1], a[2]), Encode(a[3..]), Encode(b));
    }
  }

  lemma {:induction false} WithoutGroup(a: seq<byte>, b: seq<byte>)
    requires |a| >= 3
    ensures (a + b)[3..] == a[3..] + b && (a + b)[..3] == [a[0], a[1], a[2]]
    ensures (a + b)[0] == a[0] && (a + b)[1] == a[1] && (a + b)[2] == a[2]
  {
  }

  // ---------- line wrapping ----------

  /** What base64_append does to the line counter; a negative counter turns wrapping off. */
  predicate IsColumn(col: int) { -1 <= col <= LINE_LENGTH }

  function NextColumn(col: int): (r: int)
    requires IsColumn(col)
    ensures IsColumn(r)
  {
    if col < 0 then col else if col == LINE_LENGTH then 1 else col + 1
  }

  /** The column after n characters, in closed form. */
  function ColumnAfter(col: int, n: nat): (r: int)
    requires IsColumn(col)
    ensures IsColumn(r)
  {
    if col < 0 || n == 0 then col else (col + n - 1) % LINE_LENGTH + 1
  }

  /** The characters of s as they are written from column col on. */
  function Wrap(col: int, s: string): string
    requires IsColumn(col)
  {
    if s == "" then ""
    else
      var n := |s| - 1;
      Wrap(col, s[..n]) + (if ColumnAfter(col, n) == LINE_LENGTH then ['\n', s[n]] else [s[n]])
  }

  lemma {:induction false} ColumnStep(col: int, n: nat)
    requires IsColumn(col)
    ensures ColumnAfter(col, n + 1) == NextColumn(ColumnAfter(col, n))
  {
  }

  lemma {:induction false} ColumnSplits(col: int, m: nat, n: nat)
    requires IsColumn(col)
    ensures ColumnAfter(col, m + n) == ColumnAfter(ColumnAfter(col, m), n)
  {
    if col >= 0 && m > 0 && n > 0 {
      var a := col + m - 1;
      assert (a + n) % LINE_LENGTH == (a % LINE_LENGTH + n) % LINE_LENGTH;
    }
  }

  lemma {:induction false} WrapSplits(col: int, a: string, b: string)
    requires IsColumn(col)
    ensures Wrap(col, a + b) == Wrap(col, a) + Wrap(ColumnAfter(col, |a|), b)
  {
    if b == "" {
      assert a + b == a;
    } else {
      var n := |b| - 1;
      WrapSplits(col, a, b[..n]);
      ColumnSplits(col, |a|, n);
      assert (a + b)[..|a| + n] == a + b[..n];
    }
  }

  /** Number of line breaks written with n characters from column col on. */
  function Breaks(col: int, n: nat): nat
    requires IsColumn(col)
  {
    if col < 0 || n == 0 then 0 else (col + n - 1) / LINE_LENGTH
  }

  lemma {:induction false} WrapLength(col: int, s: string)
    requires IsColumn(col)
    ensures |Wrap(col, s)| == |s| + Breaks(col, |s|)
  {
    if s != "" {
      WrapLength(col, s[..|s| - 1]);
      BreaksStep(col, |s| - 1);
    }
  }

  lemma {:induction false} BreaksStep(col: int, n: nat)
    requires IsColumn(col)
    ensures Breaks(col, n + 1) == Breaks(col, n) + if ColumnAfter(col, n) == LINE_LENGTH then 1 else 0
  {
  }

  /** Where the line breaks are: with wrapping on, position j of the text holds one exactly
      when j + col is 76 modulo 77, so that no line is longer than 76 and every line but the
      last is exactly that long; all other positions hold the characters in order. */
  lemma {:induction false} WrapShape(col: int, s: string)
    requires 0 <= col <= LINE_LENGTH
    ensures |Wrap(col, s)| == |s| + Breaks(col, |s|)
    ensures forall j :: 0 <= j < |Wrap(col, s)| ==>
      if (j + col) % 77 == 76 then Wrap(col, s)[j] == '\n'
      else 0 <= j - (j + col) / 77 < |s| && Wrap(col, s)[j] == s[j - (j + col) / 77]
  {
    WrapLength(col, s);
    if s != "" {
      var n := |s| - 1;
      WrapShape(col, s[..n]);
    }
  }

  function StripBreaks(s: string): string {
    if s == "" then "" else StripBreaks(s[..|s| - 1]) + if s[|s| - 1] == '\n' then "" else [s[|s| - 1]]
  }

  lemma {:induction false} StripWrap(col: int, s: string)
    requires IsColumn(col) && '\n' !in s
    ensures StripBreaks(Wrap(col, s)) == s
  {
    if s != "" {
      var n := |s| - 1;
      var start, c := s[..n], s[n];
      assert start + [c] == s && c in s;
      StripWrap(col, start);
      StripStep(Wrap(col, start), c, ColumnAfter(col, n) == LINE_LENGTH);
    }
  }

  lemma {:induction false} StripStep(s: string, c: char, broken: bool)
    requires c != '\n'
    ensures StripBreaks(s + if broken then ['\n', c] else [c]) == StripBreaks(s) + [c]
  {
    StripAppend(s, '\n');
    StripAppend(s, c);
    StripAppend(s + ['\n'], c);
    assert s + ['\n', c] == s + ['\n'] + [c];
  }

  lemma {:induction false} StripAppend(s: string, c: char)
    ensures StripBreaks(s + [c]) == StripBreaks(s) + if c == '\n' then "" else [c]
  {
    assert (s + [c])[..|s|] == s;
  }

  // ---------- the output buffer ----------

  /** Bytes allocated for the encoding of n bytes. */
  function Allocation(n: nat): nat { n / 3 * 4 + n / 57 + 6 }

  /** Characters, line breaks and the final NUL of the encoding of n bytes. */
  function Used(col: int, n: nat): nat
    requires IsColumn(col)
  {
    (n + 2) / 3 * 4 + Breaks(col, (n + 2) / 3 * 4) + 1
  }

  /** The allocation is enough from every column, and it is used up to the last byte exactly
      when a padded group starts late enough in the last line to break it. */
  lemma {:induction false} AllocationIsSufficient(col: int, n: nat)
    requires IsColumn(col)
    ensures Used(col, n) <= Allocation(n)
    ensures Used(col, n) == Allocation(n) <==>
      n % 3 != 0 && 0 <= col && LINE_LENGTH <= col + 4 * (n / 3 % 19) + 3
  {
    var m := (n + 2) / 3;
    if n % 3 == 0 {
      assert m == n / 3 && n / 57 == m / 19;
    } else {
      var q, r := n / 3 / 19, n / 3 % 19;
      assert m == n / 3 + 1 && n / 57 == q;
      assert m * 4 == 76 * q + 4 * r + 4;
      if col >= 0 {
        var rest := col + 4 * r + 3;
        assert col + m * 4 - 1 == 76 * q + rest;
        assert (76 * q + rest) / 76 == q + rest / 76;
      }
    }
  }

  lemma {:induction false} WrapHasNoNul(col: int, s: string)
    requires IsColumn(col) && '\0' !in s
    ensures '\0' !in Wrap(col, s)
  {
    if s != "" {
      WrapHasNoNul(col, s[..|s| - 1]);
    }
  }

  /** The buffer's first `ou` characters are s, wrapped from column col on. */
  predicate Written(buffer: seq<char>, ou: nat, lineCount: int, col: int, s: string) {
    && IsColumn(col)
    && ou <= |buffer|
    && buffer[..ou] == Wrap(col, s)
    && lineCount == ColumnAfter(col, |s|)
  }

  method Base64Append(output: array<char>, ou: nat, lineCount: int, c: char, ghost col: int, ghost s: string)
    returns (ou': nat, lineCount': int)
    requires Written(output[..], ou, lineCount, col, s)
    requires |Wrap(col, s + [c])| <= output.Length
    modifies output
    ensures Written(output[..], ou', lineCount', col, s + [c])
  {
    ColumnStep(col, |s|);
    assert (s + [c])[..|s|] == s;
    ou', lineCount' := ou, lineCount;
    if lineCount' == LINE_LENGTH {
      output[ou'] := '\n';
      ou' := ou' + 1;
      lineCount' := 0;
    }
    output[ou'] := c;
    ou' := ou' + 1;
    if lineCount' >= 0 { lineCount' := lineCount' + 1; }
  }

  lemma {:induction false} PrefixFits(col: int, s: string, more: string)
    requires IsColumn(col)
    ensures |Wrap(col, s)| <= |Wrap(col, s + more)|
  {
    WrapSplits(col, s, more);
  }

  /** Text that grows by four characters, one at a time. */
  lemma {:induction false} FourFit(col: int, s: string, quad: string, s1: string, s2: string, s3: string)
    requires IsColumn(col) && |quad| == 4
    requires s1 == s + [quad[0]] && s2 == s1 + [quad[1]] && s3 == s2 + [quad[2]]
    ensures s3 + [quad[3]] == s + quad
    ensures |Wrap(col, s1)| <= |Wrap(col, s2)| <= |Wrap(col, s3)| <= |Wrap(col, s + quad)|
  {
    assert s3 + [quad[3]] == s + quad;
    PrefixFits(col, s1, [quad[1]]);
    PrefixFits(col, s2, [quad[2]]);
    PrefixFits(col, s3, [quad[3]]);
  }

  /** The four appends for one group. */
  method AppendQuad(output: array<char>, ou: nat, lineCount: int, quad: string, ghost col: int, ghost s: string)
    returns (ou': nat, lineCount': int)
    requires |quad| == 4
    requires Written(output[..], ou, lineCount, col, s)
    requires |Wrap(col, s + quad)| <= output.Length
    modifies output
    ensures Written(output[..], ou', lineCount', col, s + quad)
  {
    ghost var s1 := s + [quad[0]];
    ghost var s2 := s1 + [quad[1]];
    ghost var s3 := s2 + [quad[2]];
    FourFit(col, s, quad, s1, s2, s3);
    ou', lineCount' := Base64Append(output, ou, lineCount, quad[0], col, s);
    ou', lineCount' := Base64Append(output, ou', lineCount', quad[1], col, s1);
    ou', lineCount' := Base64Append(output, ou', lineCount', quad[2], col, s2);
    ou', lineCount' := Base64Append(output, ou', lineCount', quad[3], col, s3);
  }

  /** The quad for a group of one to three bytes. */
  function QuadOf(group: seq<byte>): (s: string)
    requires 1 <= |group| <= 3
    ensures |s| == 4
  {
    if |group| == 3 then Quad3(group[0], group[1], group[2])
    else if |group| == 2 then Quad2(group[0], group[1])
    else Quad1(group[0])
  }

  lemma {:induction false} EncodeGroup(group: seq<byte>)
    requires 1 <= |group| <= 3
    ensures Encode(group) == QuadOf(group)
  {
    if |group| == 3 {
      assert group[3..] == [];
    }
  }

  /** The group of m bytes at p extends the encoding by one quad. */
  lemma {:induction false} NextQuad(data: seq<byte>, p: nat, m: nat)
    requires p % 3 == 0 && p + m <= |data| && 1 <= m <= 3
    ensures Encode(data[..p]) + QuadOf(data[p..p + m]) == Encode(data[..p + m])
  {
    AddGroup(data[..p], data[p..p + m]);
    assert data[..p] + data[p..p + m] == data[..p + m];
  }

  lemma {:induction false} AddGroup(before: seq<byte>, group: seq<byte>)
    requires |before| % 3 == 0 && 1 <= |group| <= 3
    ensures Encode(before) + QuadOf(group) == Encode(before + group)
  {
    EncodeGroup(group);
    EncodeSplits(before, group);
  }

  lemma {:induction false} QuadFits(data: seq<byte>, p: nat, m: nat, col: int)
    requires IsColumn(col) && p % 3 == 0 && p + m <= |data| && 1 <= m <= 3 && (m == 3 || p + m == |data|)
    ensures Encode(data[..p]) + QuadOf(data[p..p + m]) == Encode(data[..p + m])
    ensures |Wrap(col, Encode(data[..p + m]))| <= |Wrap(col, Encode(data))|
  {
    NextQuad(data, p, m);
    GroupFits(data, p, m, col);
  }

  lemma {:induction false} GroupFits(data: seq<byte>, p: nat, m: nat, col: int)
    requires IsColumn(col) && p % 3 == 0 && p + m <= |data| && (m == 3 || p + m == |data|)
    ensures |Wrap(col, Encode(data[..p + m]))| <= |Wrap(col, Encode(data))|
  {
    CutAfter(|data|, p, m);
    GroupsFit(data, p + m, col);
  }

  /** Text of length n can be encoded in two parts at k. */
  predicate IsCut(n: nat, k: nat) { k % 3 == 0 || k == n }

  lemma {:induction false} CutAfter(n: nat, p: nat, m: nat)
    requires p % 3 == 0 && (m == 3 || p + m == n)
    ensures IsCut(n, p + m)
  {
  }

  lemma {:induction false} GroupsFit(data: seq<byte>, k: nat, col: int)
    requires IsColumn(col) && k <= |data| && IsCut(|data|, k)
    ensures |Wrap(col, Encode(data[..k]))| <= |Wrap(col, Encode(data))|
  {
    if k == |data| {
      assert data[..k] == data;
    } else {
      EncodeSplits(data[..k], data[k..]);
      assert data[..k] + data[k..] == data;
      WrapSplits(col, Encode(data[..k]), Encode(data[k..]));
    }
  }

  lemma {:induction false} BufferFits(col: int, data: seq<byte>)
    requires IsColumn(col)
    ensures |Wrap(col, Encode(data))| + 1 <= Allocation(|data|)
  {
    WrapLength(col, Encode(data));
    AllocationIsSufficient(col, |data|);
  }

  /** Encodes the group of m bytes at p. */
  method EncodeStep(data: seq<byte>, p: nat, m: nat, output: array<char>, ou: nat, lineCount: int, ghost col: int)
    returns (ou': nat, lineCount': int)
    requires p % 3 == 0 && p + m <= |data| && 1 <= m <= 3 && (m == 3 || p + m == |data|)
    requires Written(output[..], ou, lineCount, col, Encode(data[..p]))
    requires |Wrap(col, Encode(data))| <= output.Length
    modifies output
    ensures Written(output[..], ou', lineCount', col, Encode(data[..p + m]))
  {
    QuadFits(data, p, m, col);
    ou', lineCount' := AppendQuad(output, ou, lineCount, QuadOf(data[p..p + m]), col, Encode(data[..p]));
  }

  lemma {:induction false} Sealed(buffer: seq<char>, ou: nat, lineCount: int, col: int, data: seq<byte>)
    requires Written(buffer, ou, lineCount, col, Encode(data)) && |buffer| == Allocation(|data|)
    ensures ou < |buffer| && HoldsString(buffer[ou := '\0'], Wrap(col, Encode(data)))
  {
    BufferFits(col, data);
    EncodeAlphabet(data);
    WrapHasNoNul(col, Encode(data));
  }

  /** The groups of three. */
  method EncodeGroups(data: seq<byte>, output: array<char>, lineCount: int)
    returns (p: nat, ou: nat, lineCount': int)
    requires IsColumn(lineCount) && |Wrap(lineCount, Encode(data))| <= output.Length
    modifies output
    ensures p % 3 == 0 && p <= |data| < p + 3
    ensures Written(output[..], ou, lineCount', lineCount, Encode(data[..p]))
  {
    p, ou, lineCount' := 0, 0, lineCount;
    while |data| - p >= 3
      invariant p <= |data| && p % 3 == 0
      invariant Written(output[..], ou, lineCount', lineCount, Encode(data[..p]))
    {
      ou, lineCount' := EncodeStep(data, p, 3, output, ou, lineCount', lineCount);
      p := p + 3;
    }
  }

  /** Encodes data into a fresh C string, continuing a line at lineCount. */
  method EncodeMultiple(data: seq<byte>, lineCount: int) returns (output: array?<char>, lineCount': int)
    requires IsColumn(lineCount)
    ensures output == null <==> data == []
    ensures output != null ==>
      && output.Length == Allocation(|data|)
      && HoldsString(output[..], Wrap(lineCount, Encode(data)))
    ensures lineCount' == ColumnAfter(lineCount, |Encode(data)|)
  {
    if data == [] {
      return null, lineCount;
    }
    var buffer := new char[Allocation(|data|)];
    BufferFits(lineCount, data);
    var p, ou;
    p, ou, lineCount' := EncodeGroups(data, buffer, lineCount);
    if |data| - p == 2 {
      ou, lineCount' := EncodeStep(data, p, 2, buffer, ou, lineCount', lineCount);
      p := p + 2;
    } else if |data| - p == 1 {
      ou, lineCount' := EncodeStep(data, p, 1, buffer, ou, lineCount', lineCount);
      p := p + 1;
    }
    assert data[..p] == data;
    Sealed(buffer[..], ou, lineCount', lineCount, data);
    ghost var text := buffer[..];
    buffer[ou] := '\0';
    assert buffer[..] == text[ou := '\0'];
    output := buffer;
  }

  /** Lines of 76 characters, starting a new one. */
  method EncodeWrapped(data: seq<byte>) returns (output: array?<char>)
    ensures output == null <==> data == []
    ensures output != null ==> HoldsString(output[..], Wrap(0, Encode(data)))
  {
    var lineCount := 0;
    output, lineCount := EncodeMultiple(data, lineCount);
  }

  /** All on one line. */
  method EncodeSingle(data: seq<byte>) returns (output: array?<char>)
    ensures output == null <==> data == []
    ensures output != null ==> HoldsString(output[..], Encode(data))
  {
    var lineCount := -1;
    output, lineCount := EncodeMultiple(data, lineCount);
    UnwrappedIsPlain(Encode(data));
  }

  lemma {:induction false} UnwrappedIsPlain(s: string)
    ensures Wrap(-1, s) == s
  {
    if s != "" {
      UnwrappedIsPlain(s[..|s| - 1]);
      assert s == s[..|s| - 1] + [s[|s| - 1]];
    }
  }

  /** Whatever line it starts on, the text written for data determines data. */
  lemma {:induction false} WrappedRoundTrip(col: int, data: seq<byte>)
    requires IsColumn(col)
    ensures Decode(StripBreaks(Wrap(col, Encode(data)))) == Some(data)
  {
    EncodeAlphabet(data);
    StripWrap(col, Encode(data));
    EncodeRoundTrip(data);
  }
}
