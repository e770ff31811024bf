/** The two block ciphers of the file format (src/libpst.c), sections 5.1 and 5.2 of [MS-PST]. */
module Cipher {
  import opened Bytes

  /** The k-th of sixteen bytes: one row of a substitution table. The tables are looked up by
      bisection, which costs the verifier far less than indexing a sequence. */
  function Pick(k: int, b0: byte, b1: byte, b2: byte, b3: byte, b4: byte, b5: byte, b6: byte, b7: byte,
                b8: byte, b9: byte, b10: byte, b11: byte, b12: byte, b13: byte, b14: byte, b15: byte): byte
  {
    if k < 8 then
      if k < 4 then if k < 2 then if k < 1 then b0 else b1 else if k < 3 then b2 else b3
      else if k < 6 then if k < 5 then b4 else b5 else if k < 7 then b6 else b7
    else
      if k < 12 then if k < 10 then if k < 9 then b8 else b9 else if k < 11 then b10 else b11
      else if k < 14 then if k < 13 then b12 else b13 else if k < 15 then b14 else b15
  }

  /** The substitution of the simple cipher, and the first rotor of the strong one. */
  function CompEnc(y: byte): byte {
    if y < 0x80 then
      if y < 0x40 then
        if y < 0x20 then
          if y < 0x10 then
            Pick(y - 0x00, 0x47, 0xf1, 0xb4, 0xe6, 0x0b, 0x6a, 0x72, 0x48, 0x85, 0x4e, 0x9e, 0xeb, 0xe2, 0xf8, 0x94, 0x53)
          else
            Pick(y - 0x10, 0xe0, 0xbb, 0xa0, 0x02, 0xe8, 0x5a, 0x09, 0xab, 0xdb, 0xe3, 0xba, 0xc6, 0x7c, 0xc3, 0x10, 0xdd)
        else
          if y < 0x30 then
            Pick(y - 0x20, 0x39, 0x05, 0x96, 0x30, 0xf5, 0x37, 0x60, 0x82, 0x8c, 0xc9, 0x13, 0x4a, 0x6b, 0x1d, 0xf3, 0xfb)
          else
            Pick(y - 0x30, 0x8f, 0x26, 0x97, 0xca, 0x91, 0x17, 0x01, 0xc4, 0x32, 0x2d, 0x6e, 0x31, 0x95, 0xff, 0xd9, 0x23)
      else
        if y < 0x60 then
          if y < 0x50 then
            Pick(y - 0x40, 0xd1, 0x00, 0x5e, 0x79, 0xdc, 0x44, 0x3b, 0x1a, 0x28, 0xc5, 0x61, 0x57, 0x20, 0x90, 0x3d, 0x83)
          else
            Pick(y - 0x50, 0xb9, 0x43, 0xbe, 0x67, 0xd2, 0x46, 0x42, 0x76, 0xc0, 0x6d, 0x5b, 0x7e, 0xb2, 0x0f, 0x16, 0x29)
        else
          if y < 0x70 then
            Pick(y - 0x60, 0x3c, 0xa9, 0x03, 0x54, 0x0d, 0xda, 0x5d, 0xdf, 0xf6, 0xb7, 0xc7, 0x62, 0xcd, 0x8d, 0x06, 0xd3)
          else
            Pick(y - 0x70, 0x69, 0x5c, 0x86, 0xd6, 0x14, 0xf7, 0xa5, 0x66, 0x75, 0xac, 0xb1, 0xe9, 0x45, 0x21, 0x70, 0x0c)
    else
      if y < 0xc0 then
        if y < 0xa0 then
          if y < 0x90 then
            Pick(y - 0x80, 0x87, 0x9f, 0x74, 0xa4, 0x22, 0x4c, 0x6f, 0xbf, 0x1f, 0x56, 0xaa, 0x2e, 0xb3, 0x78, 0x33, 0x50)
          else
            Pick(y - 0x90, 0xb0, 0xa3, 0x92, 0xbc, 0xcf, 0x19, 0x1c, 0xa7, 0x63, 0xcb, 0x1e, 0x4d, 0x3e, 0x4b, 0x1b, 0x9b)
        else
          if y < 0xb0 then
            Pick(y - 0xa0, 0x4f, 0xe7, 0xf0, 0xee, 0xad, 0x3a, 0xb5, 0x59, 0x04, 0xea, 0x40, 0x55, 0x25, 0x51, 0xe5, 0x7a)
          else
            Pick(y - 0xb0, 0x89, 0x38, 0x68, 0x52, 0x7b, 0xfc, 0x27, 0xae, 0xd7, 0xbd, 0xfa, 0x07, 0xf4, 0xcc, 0x8e, 0x5f)
      else
        if y < 0xe0 then
          if y < 0xd0 then
            Pick(y - 0xc0, 0xef, 0x35, 0x9c, 0x84, 0x2b, 0x15, 0xd5, 0x77, 0x34, 0x49, 0xb6, 0x12, 0x0a, 0x7f, 0x71, 0x88)
          else
            Pick(y - 0xd0, 0xfd, 0x9d, 0x18, 0x41, 0x7d, 0x93, 0xd8, 0x58, 0x2c, 0xce, 0xfe, 0x24, 0xaf, 0xde, 0xb8, 0x36)
        else
          if y < 0xf0 then
            Pick(y - 0xe0, 0xc8, 0xa1, 0x80, 0xa6, 0x99, 0x98, 0xa8, 0x2f, 0x0e, 0x81, 0x65, 0x73, 0xe4, 0xc2, 0xa2, 0x8a)
          else
            Pick(y - 0xf0, 0xd4, 0xe1, 0x11, 0xd0, 0x08, 0x8b, 0x2a, 0xf2, 0xed, 0x9a, 0x64, 0x3f, 0xc1, 0x6c, 0xf9, 0xec)
  }

  /** The second rotor of the strong cipher. */
  function CompHigh1(y: byte): byte {
    if y < 0x80 then
      if y < 0x40 then
        if y < 0x20 then
          if y < 0x10 then
            Pick(y - 0x00, 0x41, 0x36, 0x13, 0x62, 0xa8, 0x21, 0x6e, 0xbb, 0xf4, 0x16, 0xcc, 0x04, 0x7f, 0x64, 0xe8, 0x5d)
          else
            Pick(y - 0x10, 0x1e, 0xf2, 0xcb, 0x2a, 0x74, 0xc5, 0x5e, 0x35, 0xd2, 0x95, 0x47, 0x9e, 0x96, 0x2d, 0x9a, 0x88)
        else
          if y < 0x30 then
            Pick(y - 0x20, 0x4c, 0x7d, 0x84, 0x3f, 0xdb, 0xac, 0x31, 0xb6, 0x48, 0x5f, 0xf6, 0xc4, 0xd8, 0x39, 0x8b, 0xe7)
          else
            Pick(y - 0x30, 0x23, 0x3b, 0x38, 0x8e, 0xc8, 0xc1, 0xdf, 0x25, 0xb1, 0x20, 0xa5, 0x46, 0x60, 0x4e, 0x9c, 0xfb)
      else
        if y < 0x60 then
          if y < 0x50 then
            Pick(y - 0x40, 0xaa, 0xd3, 0x56, 0x51, 0x45, 0x7c, 0x55, 0x00, 0x07, 0xc9, 0x2b, 0x9d, 0x85, 0x9b, 0x09, 0xa0)
          else
            Pick(y - 0x50, 0x8f, 0xad, 0xb3, 0x0f, 0x63, 0xab, 0x89, 0x4b, 0xd7, 0xa7, 0x15, 0x5a, 0x71, 0x66, 0x42, 0xbf)
        else
          if y < 0x70 then
            Pick(y - 0x60, 0x26, 0x4a, 0x6b, 0x98, 0xfa, 0xea, 0x77, 0x53, 0xb2, 0x70, 0x05, 0x2c, 0xfd, 0x59, 0x3a, 0x86)
          else
            Pick(y - 0x70, 0x7e, 0xce, 0x06, 0xeb, 0x82, 0x78, 0x57, 0xc7, 0x8d, 0x43, 0xaf, 0xb4, 0x1c, 0xd4, 0x5b, 0xcd)
    else
      if y < 0xc0 then
        if y < 0xa0 then
          if y < 0x90 then
            Pick(y - 0x80, 0xe2, 0xe9, 0x27, 0x4f, 0xc3, 0x08, 0x72, 0x80, 0xcf, 0xb0, 0xef, 0xf5, 0x28, 0x6d, 0xbe, 0x30)
          else
            Pick(y - 0x90, 0x4d, 0x34, 0x92, 0xd5, 0x0e, 0x3c, 0x22, 0x32, 0xe5, 0xe4, 0xf9, 0x9f, 0xc2, 0xd1, 0x0a, 0x81)
        else
          if y < 0xb0 then
            Pick(y - 0xa0, 0x12, 0xe1, 0xee, 0x91, 0x83, 0x76, 0xe3, 0x97, 0xe6, 0x61, 0x8a, 0x17, 0x79, 0xa4, 0xb7, 0xdc)
          else
            Pick(y - 0xb0, 0x90, 0x7a, 0x5c, 0x8c, 0x02, 0xa6, 0xca, 0x69, 0xde, 0x50, 0x1a, 0x11, 0x93, 0xb9, 0x52, 0x87)
      else
        if y < 0xe0 then
          if y < 0xd0 then
            Pick(y - 0xc0, 0x58, 0xfc, 0xed, 0x1d, 0x37, 0x49, 0x1b, 0x6a, 0xe0, 0x29, 0x33, 0x99, 0xbd, 0x6c, 0xd9, 0x94)
          else
            Pick(y - 0xd0, 0xf3, 0x40, 0x54, 0x6f, 0xf0, 0xc6, 0x73, 0xb8, 0xd6, 0x3e, 0x65, 0x18, 0x44, 0x1f, 0xdd, 0x67)
        else
          if y < 0xf0 then
            Pick(y - 0xe0, 0x10, 0xf1, 0x0c, 0x19, 0xec, 0xae, 0x03, 0xa1, 0x14, 0x7b, 0xa9, 0x0b, 0xff, 0xf8, 0xa3, 0xc0)
          else
            Pick(y - 0xf0, 0xa2, 0x01, 0xf7, 0x2e, 0xbc, 0x24, 0x68, 0x75, 0x0d, 0xfe, 0xba, 0x2f, 0xb5, 0xd0, 0xda, 0x3d)
  }

  /** The third rotor of the strong cipher. */
  function CompHigh2(y: byte): byte {
    if y < 0x80 then
      if y < 0x40 then
        if y < 0x20 then
          if y < 0x10 then
            Pick(y - 0x00, 0x14, 0x53, 0x0f, 0x56, 0xb3, 0xc8, 0x7a, 0x9c, 0xeb, 0x65, 0x48, 0x17, 0x16, 0x15, 0x9f, 0x02)
          else
            Pick(y - 0x10, 0xcc, 0x54, 0x7c, 0x83, 0x00, 0x0d, 0x0c, 0x0b, 0xa2, 0x62, 0xa8, 0x76, 0xdb, 0xd9, 0xed, 0xc7)
        else
          if y < 0x30 then
            Pick(y - 0x20, 0xc5, 0xa4, 0xdc, 0xac, 0x85, 0x74, 0xd6, 0xd0, 0xa7, 0x9b, 0xae, 0x9a, 0x96, 0x71, 0x66, 0xc3)
          else
            Pick(y - 0x30, 0x63, 0x99, 0xb8, 0xdd, 0x73, 0x92, 0x8e, 0x84, 0x7d, 0xa5, 0x5e, 0xd1, 0x5d, 0x93, 0xb1, 0x57)
      else
        if y < 0x60 then
          if y < 0x50 then
            Pick(y - 0x40, 0x51, 0x50, 0x80, 0x89, 0x52, 0x94, 0x4f, 0x4e, 0x0a, 0x6b, 0xbc, 0x8d, 0x7f, 0x6e, 0x47, 0x46)
          else
            Pick(y - 0x50, 0x41, 0x40, 0x44, 0x01, 0x11, 0xcb, 0x03, 0x3f, 0xf7, 0xf4, 0xe1, 0xa9, 0x8f, 0x3c, 0x3a, 0xf9)
        else
          if y < 0x70 then
            Pick(y - 0x60, 0xfb, 0xf0, 0x19, 0x30, 0x82, 0x09, 0x2e, 0xc9, 0x9d, 0xa0, 0x86, 0x49, 0xee, 0x6f, 0x4d, 0x6d)
          else
            Pick(y - 0x70, 0xc4, 0x2d, 0x81, 0x34, 0x25, 0x87, 0x1b, 0x88, 0xaa, 0xfc, 0x06, 0xa1, 0x12, 0x38, 0xfd, 0x4c)
    else
      if y < 0xc0 then
        if y < 0xa0 then
          if y < 0x90 then
            Pick(y - 0x80, 0x42, 0x72, 0x64, 0x13, 0x37, 0x24, 0x6a, 0x75, 0x77, 0x43, 0xff, 0xe6, 0xb4, 0x4b, 0x36, 0x5c)
          else
            Pick(y - 0x90, 0xe4, 0xd8, 0x35, 0x3d, 0x45, 0xb9, 0x2c, 0xec, 0xb7, 0x31, 0x2b, 0x29, 0x07, 0x68, 0xa3, 0x0e)
        else
          if y < 0xb0 then
            Pick(y - 0xa0, 0x69, 0x7b, 0x18, 0x9e, 0x21, 0x39, 0xbe, 0x28, 0x1a, 0x5b, 0x78, 0xf5, 0x23, 0xca, 0x2a, 0xb0)
          else
            Pick(y - 0xb0, 0xaf, 0x3e, 0xfe, 0x04, 0x8c, 0xe7, 0xe5, 0x98, 0x32, 0x95, 0xd3, 0xf6, 0x4a, 0xe8, 0xa6, 0xea)
      else
        if y < 0xe0 then
          if y < 0xd0 then
            Pick(y - 0xc0, 0xe9, 0xf3, 0xd5, 0x2f, 0x70, 0x20, 0xf2, 0x1f, 0x05, 0x67, 0xad, 0x55, 0x10, 0xce, 0xcd, 0xe3)
          else
            Pick(y - 0xd0, 0x27, 0x3b, 0xda, 0xba, 0xd7, 0xc2, 0x26, 0xd4, 0x91, 0x1d, 0xd2, 0x1c, 0x22, 0x33, 0xf8, 0xfa)
        else
          if y < 0xf0 then
            Pick(y - 0xe0, 0xf1, 0x5a, 0xef, 0xcf, 0x90, 0xb6, 0x8b, 0xb5, 0xbd, 0xc0, 0xbf, 0x08, 0x97, 0x1e, 0x6c, 0xe2)
          else
            Pick(y - 0xf0, 0x61, 0xe0, 0xc6, 0xc1, 0x59, 0xab, 0xbb, 0x58, 0xde, 0x5f, 0xdf, 0x60, 0x79, 0x7e, 0xb2, 0x8a)
  }

  // ---------- relations between the rotors, an eighth of the tables at a time ----------

  lemma {:induction false} InverseFrom00(y: byte)
    requires 0x00 <= y < 0x20
    ensures CompHigh1(CompEnc(y)) == y && CompEnc(CompHigh1(y)) == y && CompHigh2(CompHigh2(y)) == y
  {
  }

  lemma {:induction false} InverseFrom20(y: byte)
    requires 0x20 <= y < 0x40
    ensures CompHigh1(CompEnc(y)) == y && CompEnc(CompHigh1(y)) == y && CompHigh2(CompHigh2(y)) == y
  {
  }

  lemma {:induction false} InverseFrom40(y: byte)
    requires 0x40 <= y < 0x60
    ensures CompHigh1(CompEnc(y)) == y && CompEnc(CompHigh1(y)) == y && CompHigh2(CompHigh2(y)) == y
  {
  }

  lemma {:induction false} InverseFrom60(y: byte)
    requires 0x60 <= y < 0x80
    ensures CompHigh1(CompEnc(y)) == y && CompEnc(CompHigh1(y)) == y && CompHigh2(CompHigh2(y)) == y
  {
  }

  lemma {:induction false} InverseFrom80(y: byte)
    requires 0x80 <= y < 0xa0
    ensures CompHigh1(CompEnc(y)) == y && CompEnc(CompHigh1(y)) == y && CompHigh2(CompHigh2(y)) == y
  {
  }

  lemma {:induction false} InverseFromA0(y: byte)
    requires 0xa0 <= y < 0xc0
    ensures CompHigh1(CompEnc(y)) == y && CompEnc(CompHigh1(y)) == y && CompHigh2(CompHigh2(y)) == y
  {
  }

  lemma {:induction false} InverseFromC0(y: byte)
    requires 0xc0 <= y < 0xe0
    ensures CompHigh1(CompEnc(y)) == y && CompEnc(CompHigh1(y)) == y && CompHigh2(CompHigh2(y)) == y
  {
  }

  lemma {:induction false} InverseFromE0(y: byte)
    requires 0xe0 <= y < 0x100
    ensures CompHigh1(CompEnc(y)) == y && CompEnc(CompHigh1(y)) == y && CompHigh2(CompHigh2(y)) == y
  {
  }

  /** The first two rotors undo each other and the third undoes itself. */
  lemma {:induction false} RotorsAreInverse(y: byte)
    ensures CompHigh1(CompEnc(y)) == y
    ensures CompEnc(CompHigh1(y)) == y
    ensures CompHigh2(CompHigh2(y)) == y
  {
    match y / 32
    case 0 => InverseFrom00(y);
    case 1 => InverseFrom20(y);
    case 2 => InverseFrom40(y);
    case 3 => InverseFrom60(y);
    case 4 => InverseFrom80(y);
    case 5 => InverseFromA0(y);
    case 6 => InverseFromC0(y);
    case _ => InverseFromE0(y);
  }

  // ---------- one byte, one buffer ----------

  const COMP_ENCRYPT := 1
  const STRONG_ENCRYPT := 2

  /** Sums and differences of unsigned chars wrap. */
  function Plus(a: byte, b: byte): byte { (a + b as int) % 256 }

  function Minus(a: byte, b: byte): byte { (a - b as int) % 256 }

  /** The low and the high byte of the 16-bit salt. */
  function Lo(salt: nat): byte { salt % 256 }

  function Hi(salt: nat): byte { salt / 256 % 256 }

  /** Bitwise exclusive or of two numbers below 2^n. */
  function Xor(a: nat, b: nat, n: nat): (r: nat)
    decreases n, a
  {
    if n == 0 then 0 else (a % 2 + b % 2) % 2 + 2 * Xor(a / 2, b / 2, n - 1)
  }

  /** The salt of a block: its id's two low 16-bit halves combined. */
  function Salt(id: nat): nat { Xor(id / 0x1_0000 % 0x1_0000, id % 0x1_0000, 16) }

  /** One byte through the three rotors, each offset by a byte of the salt. */
  function Strong(salt: nat, y: byte): byte {
    Minus(CompEnc(Minus(CompHigh2(Plus(CompHigh1(Plus(y, Lo(salt))), Hi(salt))), Hi(salt))), Lo(salt))
  }

  /** The salt for byte x of a block: it advances by one for each byte, as a uint16_t. */
  function SaltAt(id: nat, x: nat): nat { (Salt(id) + x) % 0x1_0000 }

  function StrongBuffer(id: nat, s: seq<byte>): (r: seq<byte>)
    ensures |r| == |s|
  {
    seq(|s|, x requires 0 <= x < |s| => Strong(SaltAt(id, x), s[x]))
  }

  function Substitute(s: seq<byte>): (r: seq<byte>)
    ensures |r| == |s|
  {
    seq(|s|, x requires 0 <= x < |s| => CompEnc(s[x]))
  }

  /** The buffer after decryption; an unknown type leaves it alone. */
  function Decrypted(id: nat, s: seq<byte>, kind: byte): (r: seq<byte>)
    ensures |r| == |s|
  {
    if kind == COMP_ENCRYPT then Substitute(s)
    else if kind == STRONG_ENCRYPT then StrongBuffer(id, s)
    else s
  }

  lemma {:induction false} PlusMinus(a: byte, b: byte)
    ensures Minus(Plus(a, b), b) == a
    ensures Plus(Minus(a, b), b) == a
  {
    assert Plus(a, b) == if a + b < 256 then a + b else a + b - 256;
    assert Minus(a, b) == if a >= b then a - b else a - b + 256;
  }

  /** A conjugate of an involution by a pair of inverse maps is an involution. */
  lemma {:induction false} StrongTwice(salt: nat, y: byte)
    ensures Strong(salt, Strong(salt, y)) == y
  {
    var lo, hi := Lo(salt), Hi(salt);
    var a := CompHigh1(Plus(y, lo));
    var b := CompHigh2(Plus(a, hi));
    var c := CompEnc(Minus(b, hi));
    var z := Minus(c, lo);
    PlusMinus(c, lo);
    RotorsAreInverse(Minus(b, hi));
    assert CompHigh1(Plus(z, lo)) == Minus(b, hi);
    PlusMinus(b, hi);
    RotorsAreInverse(Plus(a, hi));
    PlusMinus(a, hi);
    RotorsAreInverse(Plus(y, lo));
    PlusMinus(y, lo);
  }

  /** Decrypting twice under the same block id restores every buffer: the strong cipher
      also encrypts. */
  lemma {:induction false} StrongIsInvolution(id: nat, s: seq<byte>)
    ensures Decrypted(id, Decrypted(id, s, STRONG_ENCRYPT), STRONG_ENCRYPT) == s
  {
    forall x | 0 <= x < |s|
      ensures StrongBuffer(id, StrongBuffer(id, s))[x] == s[x]
    {
      StrongTwice(SaltAt(id, x), s[x]);
    }
  }

  /** The simple cipher is undone, on either side, by substitution through the second rotor. */
  lemma {:induction false} SubstitutionIsInvertible(id: nat, s: seq<byte>)
    ensures var undo := (t: seq<byte>) => seq(|t|, x requires 0 <= x < |t| => CompHigh1(t[x]));
      && undo(Decrypted(id, s, COMP_ENCRYPT)) == s
      && Decrypted(id, undo(s), COMP_ENCRYPT) == s
  {
    forall x | 0 <= x < |s|
      ensures CompHigh1(CompEnc(s[x])) == s[x] && CompEnc(CompHigh1(s[x])) == s[x]
    {
      RotorsAreInverse(s[x]);
    }
  }

  // ---------- what the bytes of the salt do ----------

  /** Adding two numbers before wrapping is adding them one after the other. */
  lemma {:induction false} PlusOneMore(a: byte, b: byte)
    requires b < 255
    ensures Plus(a, b + 1) == Plus(Plus(a, 1), b)
    ensures Minus(a, b + 1) == Minus(Minus(a, b), 1)
  {
    assert Plus(a, 1) == if a == 255 then 0 else a + 1;
    assert Minus(a, b) == if a >= b then a - b else a - b + 256;
  }

  lemma {:induction false} BytesOfNext(salt: nat)
    requires salt % 256 < 255
    ensures Lo(salt + 1) == Lo(salt) + 1 && Hi(salt + 1) == Hi(salt)
  {
  }

  /** The low byte of the salt is added before the first rotor and taken off after the last:
      under the next salt, a byte becomes one less than its successor does under this one. */
  lemma {:induction false} NextSalt(salt: nat, y: byte)
    requires salt % 256 < 255
    ensures Strong(salt + 1, y) == Minus(Strong(salt, Plus(y, 1)), 1)
  {
    BytesOfNext(salt);
    PlusOneMore(y, Lo(salt));
    var c := CompEnc(Minus(CompHigh2(Plus(CompHigh1(Plus(y, Lo(salt + 1))), Hi(salt))), Hi(salt)));
    PlusOneMore(c, Lo(salt));
  }

  /** The high byte is added behind the first rotor and taken off before the last. */
  lemma {:induction false} NextHighByte(high: nat, z: byte)
    requires high < 255
    ensures CompHigh1(Strong(256 * (high + 1), CompEnc(z))) == Minus(CompHigh1(Strong(256 * high, CompEnc(Plus(z, 1)))), 1)
  {
    HighOnly(high, z);
    HighOnly(high + 1, z);
    HighOnly(high, Plus(z, 1));
    PlusOneMore(z, high);
    PlusOneMore(CompHigh2(Plus(z, high + 1)), high);
  }

  lemma {:induction false} HighOnly(high: nat, z: byte)
    requires high < 256
    ensures CompHigh1(Strong(256 * high, CompEnc(z))) == Minus(CompHigh2(Plus(z, high)), high)
  {
    var salt := 256 * high;
    assert Lo(salt) == 0 && Hi(salt) == high;
    RotorsAreInverse(z);
    NothingAdded(CompEnc(z));
    var c := Minus(CompHigh2(Plus(z, high)), high);
    NothingAdded(CompEnc(c));
    RotorsAreInverse(c);
  }

  lemma {:induction false} NothingAdded(y: byte)
    ensures Plus(y, 0) == y && Minus(y, 0) == y
  {
  }

  /** Without a salt a byte just goes through the three rotors. */
  lemma {:induction false} WithoutSalt(y: byte)
    ensures Strong(0, y) == CompEnc(CompHigh2(CompHigh1(y)))
  {
    NothingAdded(y);
    NothingAdded(CompHigh1(y));
    NothingAdded(CompHigh2(CompHigh1(y)));
    NothingAdded(Strong(0, y));
    NothingAdded(CompEnc(CompHigh2(CompHigh1(y))));
  }

  // ---------- the salt of a block ----------

  /** Bit k of n. */
  function Bit(n: nat, k: nat): nat
    decreases k
  {
    if k == 0 then n % 2 else Bit(n / 2, k - 1)
  }

  lemma {:induction false} XorBits(a: nat, b: nat, n: nat, k: nat)
    ensures Bit(Xor(a, b, n), k) == if k < n then (Bit(a, k) + Bit(b, k)) % 2 else 0
    decreases k
  {
    if n == 0 {
      NoBits(k);
    } else if k > 0 {
      XorBits(a / 2, b / 2, n - 1, k - 1);
    }
  }

  lemma {:induction false} NoBits(k: nat)
    ensures Bit(0, k) == 0
  {
    if k > 0 { NoBits(k - 1); }
  }

  lemma {:induction false} LowBits(n: nat, m: nat, k: nat)
    requires k < m
    ensures Bit(n % Pow2(m), k) == Bit(n, k)
    decreases k
  {
    HalfOfRemainder(n, Pow2(m - 1));
    if k > 0 { LowBits(n / 2, m - 1, k - 1); }
  }

  lemma {:induction false} HighBits(n: nat, k: nat)
    ensures Bit(n, k + 16) == Bit(n / 0x1_0000, k)
  {
    FourBits(n, k + 12);
    FourBits(n / 16, k + 8);
    FourBits(n / 16 / 16, k + 4);
    FourBits(n / 16 / 16 / 16, k);
  }

  lemma {:induction false} Pow2Of16()
    ensures Pow2(16) == 0x1_0000
  {
    assert Pow2(4) == 16;
    assert Pow2(8) == 256;
    assert Pow2(12) == 4096;
  }

  lemma {:induction false} FourBits(n: nat, k: nat)
    ensures Bit(n, k + 4) == Bit(n / 16, k)
  {
    assert Bit(n, k + 4) == Bit(n / 2, k + 3) == Bit(n / 2 / 2, k + 2) == Bit(n / 2 / 2 / 2, k + 1);
  }

  /** Every bit of the salt combines the bits of the id at its place and 16 places above. */
  lemma {:induction false} SaltBits(id: nat, k: nat)
    ensures Bit(Salt(id), k) == if k < 16 then (Bit(id, k) + Bit(id, k + 16)) % 2 else 0
  {
    XorBits(id / 0x1_0000 % 0x1_0000, id % 0x1_0000, 16, k);
    if k < 16 {
      Pow2Of16();
      LowBits(id / 0x1_0000, 16, k);
      LowBits(id, 16, k);
      HighBits(id, k);
    }
  }

  lemma {:induction false} XorIsZero(a: nat, b: nat, n: nat)
    requires a < Pow2(n) && b < Pow2(n)
    ensures Xor(a, b, n) == 0 <==> a == b
    ensures Xor(a, b, n) == Xor(b, a, n) < Pow2(n)
    ensures Xor(0, a, n) == a
    decreases n, a
  {
    if n > 0 { XorIsZero(a / 2, b / 2, n - 1); }
  }

  /** The salt is 0 exactly for an id with equal halves, exchanging the halves does not change it,
      and an id of 16 bits is its own salt. */
  lemma {:induction false} SaltOfHalves(high: nat, low: nat)
    requires high < 0x1_0000 && low < 0x1_0000
    ensures var salt := Salt(0x1_0000 * high + low);
      && (salt == 0 <==> high == low)
      && salt == Salt(0x1_0000 * low + high) < 0x1_0000
    ensures Salt(low) == low
  {
    Pow2Of16();
    SaltIsXor(high, low);
    SaltIsXor(low, high);
    SaltIsXor(0, low);
    XorIsZero(high, low, 16);
    XorIsZero(low, low, 16);
  }

  lemma {:induction false} SaltIsXor(high: nat, low: nat)
    requires high < 0x1_0000 && low < 0x1_0000
    ensures Salt(0x1_0000 * high + low) == Xor(high, low, 16)
  {
    HalvesOf(high, low);
    HalvesOf(0, high);
  }

  lemma {:induction false} HalvesOf(high: nat, low: nat)
    requires low < 0x1_0000
    ensures (0x1_0000 * high + low) / 0x1_0000 == high && (0x1_0000 * high + low) % 0x1_0000 == low
  {
  }

  /** The salt advances by one from byte to byte and starts again at 0 behind 0xffff: a block
      without its first byte is encrypted like the next block. */
  lemma {:induction false} SaltRuns(id: nat, s: seq<byte>, x: nat)
    requires id < 0x1_0000 && x + 1 < |s|
    ensures StrongBuffer(id, s)[x + 1] == StrongBuffer(if id == 0xffff then 0 else id + 1, s[1..])[x]
  {
    SameSalt(id, x);
    StrongAt(id, s, x + 1);
    StrongAt(if id == 0xffff then 0 else id + 1, s[1..], x);
  }

  lemma {:induction false} StrongAt(id: nat, s: seq<byte>, x: nat)
    requires x < |s|
    ensures StrongBuffer(id, s)[x] == Strong(SaltAt(id, x), s[x])
  {
  }

  lemma {:induction false} SameSalt(id: nat, x: nat)
    requires id < 0x1_0000
    ensures SaltAt(id, x + 1) == SaltAt(if id == 0xffff then 0 else id + 1, x)
  {
    ShortId(id, x + 1);
    ShortId(if id == 0xffff then 0 else id + 1, x);
    if id == 0xffff { OneRoundMore(x); }
  }

  lemma {:induction false} OneRoundMore(n: nat)
    ensures (n + 0x1_0000) % 0x1_0000 == n % 0x1_0000
  {
  }

  lemma {:induction false} ShortId(id: nat, x: nat)
    requires id < 0x1_0000
    ensures SaltAt(id, x) == (id + x) % 0x1_0000
  {
    SaltOfHalves(0, id);
  }

  /** Byte 0 in block 4 is decrypted to 0x47 by the simple cipher and to 0xb6 by the strong one. */
  lemma {:induction false} KnownBytes(id: nat, s: seq<byte>)
    requires id == 4 && s == [0]
    ensures Decrypted(id, s, 1) == [0x47]
    ensures Decrypted(id, s, 2) == [0xb6]
  {
    assert Substitute(s)[0] == CompEnc(0);
    ShortId(id, 0);
    KnownStep(id);
    assert StrongBuffer(id, s)[0] == Strong(id, 0);
  }

  lemma {:induction false} KnownRotors(a: byte, b: byte, c: byte)
    requires a == 4 && b == 0xa8 && c == 0x1a
    ensures CompHigh1(a) == b && CompHigh2(b) == c && CompEnc(c) == 0xba
  {
  }

  lemma {:induction false} KnownStep(salt: nat)
    requires salt == 4
    ensures Strong(salt, 0) == 0xb6
  {
    assert Lo(salt) == 4 && Hi(salt) == 0;
    NothingAdded(CompHigh1(4));
    NothingAdded(CompHigh2(0xa8));
    KnownRotors(4, 0xa8, 0x1a);
    var a, b := CompHigh1(4), CompHigh2(0xa8);
    assert a == 0xa8 && b == 0x1a;
  }

  // ---------- pst_decrypt ----------

  method DecryptSimple(buf: array<byte>, size: nat)
    requires size <= buf.Length
    modifies buf
    ensures buf[..] == Substitute(old(buf[..size])) + old(buf[size..])
  {
    ghost var was := buf[..];
    var x := 0;
    while x < size
      invariant 0 <= x <= size
      invariant forall k :: 0 <= k < x ==> buf[k] == CompEnc(was[k])
      invariant forall k :: x <= k < buf.Length ==> buf[k] == was[k]
    {
      buf[x] := CompEnc(buf[x]);
      x := x + 1;
    }
  }

  method DecryptStrong(id: nat, buf: array<byte>, size: nat)
    requires size <= buf.Length
    modifies buf
    ensures buf[..] == StrongBuffer(id, old(buf[..size])) + old(buf[size..])
  {
    ghost var was := buf[..];
    var salt := Salt(id) % 0x1_0000;
    var x: nat := 0;
    while x < size
      invariant x <= size && salt == SaltAt(id, x)
      invariant forall k :: 0 <= k < x ==> buf[k] == Strong(SaltAt(id, k), was[k])
      invariant forall k :: x <= k < buf.Length ==> buf[k] == was[k]
    {
      buf[x] := DecryptByte(salt, buf[x]);
      SaltAdvances(id, x);
      x := x + 1;
      salt := (salt + 1) % 0x1_0000;
    }
  }

  lemma {:induction false} SaltAdvances(id: nat, x: nat)
    ensures SaltAt(id, x + 1) == (SaltAt(id, x) + 1) % 0x1_0000
  {
  }

  /** The body of the strong loop. */
  method DecryptByte(salt: nat, c: byte) returns (y: byte)
    ensures y == Strong(salt, c)
  {
    var losalt, hisalt := Lo(salt), Hi(salt);
    y := Plus(c, losalt);
    y := CompHigh1(y);
    y := Plus(y, hisalt);
    y := CompHigh2(y);
    y := Minus(y, hisalt);
    y := CompEnc(y);
    y := Minus(y, losalt);
  }

  method Decrypt(id: nat, buf: array?<byte>, size: nat, kind: byte) returns (rc: int)
    requires buf != null ==> size <= buf.Length
    modifies buf
    ensures rc == if buf != null && (kind == COMP_ENCRYPT || kind == STRONG_ENCRYPT) then 0 else -1
    ensures buf != null ==> buf[..] == Decrypted(id, old(buf[..size]), kind) + old(buf[size..])
  {
    if buf == null {
      return -1;
    }
    if kind == COMP_ENCRYPT {
      DecryptSimple(buf, size);
    } else if kind == STRONG_ENCRYPT {
      DecryptStrong(id, buf, size);
    } else {
      assert buf[..] == buf[..size] + buf[size..];
      return -1;
    }
    return 0;
  }
}
