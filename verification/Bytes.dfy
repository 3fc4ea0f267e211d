/** Fixed-width integers, hex, decimals and UTF-8 as byte sequences. */
module Bytes {
  import opened Prelude

  function Pow256(w: nat): nat {
    if w == 0 then 1 else 256 * Pow256(w - 1)
  }

  lemma {:induction false} Widths()
    ensures Pow256(4) == 0x1_0000_0000
    ensures Pow256(8) == 0x1_0000_0000_0000_0000
    ensures Pow256(16) == 0x1_0000_0000_0000_0000_0000_0000_0000_0000
  {
    assert Pow256(4) == 256 * 256 * 256 * 256;
    assert Pow256(8) == 0x1_0000_0000 * 256 * 256 * 256 * 256;
    assert Pow256(12) == 0x1_0000_0000_0000_0000 * 256 * 256 * 256 * 256;
  }

  lemma {:induction false} DivDiv(n: nat, b: nat)
    requires b > 0
    ensures n / 256 / b == n / (256 * b)
  {
    var m := n / 256;
    var q, s := m / b, m % b;
    assert n == (256 * b) * q + (256 * s + n % 256) by {
      assert m == b * q + s;
      Assoc(256, b, q);
    }
    Quotient(n, 256 * b, q, 256 * s + n % 256);
  }

  lemma {:induction false} Assoc(a: nat, b: nat, c: nat)
    ensures a * (b * c) == (a * b) * c
  {
  }

  lemma {:induction false} Multiples(a: nat, b: nat, c: nat)
    requires b <= c
    ensures a * b <= a * c
  {
  }

  lemma {:induction false} Quotient(n: nat, d: nat, q: nat, r: nat)
    requires d > 0 && n == d * q + r && r < d
    ensures n / d == q
  {
    if n / d < q {
      Multiples(d, n / d + 1, q);
    } else if n / d > q {
      Multiples(d, q + 1, n / d);
    }
  }

  lemma {:induction false} Pow256Positive(w: nat)
    ensures Pow256(w) > 0
  {
    if w == 0 {
    } else {
      Pow256Positive(w - 1);
    }
  }

  // --- Little-endian ---

  function LittleEndian(n: nat, w: nat): (b: seq<byte>)
    ensures |b| == w
    decreases w
  {
    if w == 0 then [] else [n % 256] + LittleEndian(n / 256, w - 1)
  }

  function FromLittleEndian(b: seq<byte>): nat {
    if b == [] then 0 else b[0] + 256 * FromLittleEndian(b[1..])
  }

  lemma {:induction false} LittleEndianRoundTrip(n: nat, w: nat)
    requires n < Pow256(w)
    ensures FromLittleEndian(LittleEndian(n, w)) == n
    decreases w
  {
    if w == 0 {
    } else {
      LittleEndianRoundTrip(n / 256, w - 1);
      assert LittleEndian(n, w)[1..] == LittleEndian(n / 256, w - 1);
    }
  }

  lemma {:induction false} FromLittleEndianRoundTrip(b: seq<byte>)
    ensures FromLittleEndian(b) < Pow256(|b|) && LittleEndian(FromLittleEndian(b), |b|) == b
  {
    if b == [] {
    } else {
      FromLittleEndianRoundTrip(b[1..]);
      var n := FromLittleEndian(b);
      assert n % 256 == b[0] && n / 256 == FromLittleEndian(b[1..]);
    }
  }

  /** Byte i has weight 256^i. */
  lemma {:induction false} LittleEndianAt(n: nat, w: nat, i: nat)
    requires i < w
    ensures Pow256(i) > 0 && LittleEndian(n, w)[i] == n / Pow256(i) % 256
    decreases w
  {
    Pow256Positive(i);
    if i == 0 {
    } else {
      LittleEndianAt(n / 256, w - 1, i - 1);
      DivDiv(n, Pow256(i - 1));
    }
  }

  // --- Big-endian ---

  function BigEndian(n: nat, w: nat): (b: seq<byte>)
    ensures |b| == w
    decreases w
  {
    if w == 0 then [] else BigEndian(n / 256, w - 1) + [n % 256]
  }

  function FromBigEndian(b: seq<byte>): nat {
    if b == [] then 0 else 256 * FromBigEndian(b[..|b| - 1]) + b[|b| - 1]
  }

  lemma {:induction false} BigEndianRoundTrip(n: nat, w: nat)
    requires n < Pow256(w)
    ensures FromBigEndian(BigEndian(n, w)) == n
    decreases w
  {
    if w == 0 {
    } else {
      BigEndianRoundTrip(n / 256, w - 1);
      assert BigEndian(n, w)[..w - 1] == BigEndian(n / 256, w - 1);
    }
  }

  lemma {:induction false} FromBigEndianRoundTrip(b: seq<byte>)
    ensures FromBigEndian(b) < Pow256(|b|) && BigEndian(FromBigEndian(b), |b|) == b
  {
    if b == [] {
    } else {
      FromBigEndianRoundTrip(b[..|b| - 1]);
      var n := FromBigEndian(b);
      assert n % 256 == b[|b| - 1] && n / 256 == FromBigEndian(b[..|b| - 1]);
    }
  }

  lemma {:induction false} BigEndianInjective(m: nat, n: nat, w: nat)
    requires m < Pow256(w) && n < Pow256(w) && BigEndian(m, w) == BigEndian(n, w)
    ensures m == n
  {
    BigEndianRoundTrip(m, w);
    BigEndianRoundTrip(n, w);
  }

  /** Byte i of w has weight 256^(w - 1 - i). */
  lemma {:induction false} BigEndianAt(n: nat, w: nat, i: nat)
    requires i < w
    ensures Pow256(w - 1 - i) > 0 && BigEndian(n, w)[i] == n / Pow256(w - 1 - i) % 256
    decreases w
  {
    Pow256Positive(w - 1 - i);
    if i == w - 1 {
    } else {
      BigEndianAt(n / 256, w - 1, i);
      DivDiv(n, Pow256(w - 2 - i));
    }
  }

  // --- Hex and decimal text ---

  const COMMA: byte := 44

  function HexDigit(d: nat): byte
    requires d < 16
  {
    if d < 10 then 48 + d else 87 + d
  }

  function Hex(b: seq<byte>): (t: seq<byte>)
    ensures |t| == 2 * |b|
  {
    if b == [] then [] else [HexDigit(b[0] / 16), HexDigit(b[0] % 16)] + Hex(b[1..])
  }

  lemma {:induction false} HexInjective(a: seq<byte>, b: seq<byte>)
    requires Hex(a) == Hex(b)
    ensures a == b
  {
    if a == [] {
    } else {
      assert |a| == |b|;
      assert Hex(a)[0] == Hex(b)[0] && Hex(a)[1] == Hex(b)[1];
      HexDigitInjective(a[0] / 16, b[0] / 16);
      HexDigitInjective(a[0] % 16, b[0] % 16);
      assert Hex(a)[2..] == Hex(a[1..]) && Hex(b)[2..] == Hex(b[1..]);
      HexInjective(a[1..], b[1..]);
      assert a == [a[0]] + a[1..] && b == [b[0]] + b[1..];
    }
  }

  lemma {:induction false} HexDigitInjective(d: nat, e: nat)
    requires d < 16 && e < 16 && HexDigit(d) == HexDigit(e)
    ensures d == e
  {
  }

  /** The value of a lower-case hex digit. */
  function DigitValue(c: byte): nat
    requires 48 <= c <= 57 || 97 <= c <= 102
  {
    if c <= 57 then c - 48 else c - 97 + 10
  }

  /** Byte i prints as digits 2i and 2i + 1, the high half first. */
  lemma {:induction false} HexAt(b: seq<byte>, i: nat)
    requires i < |b|
    ensures var t := Hex(b);
            && (48 <= t[2 * i] <= 57 || 97 <= t[2 * i] <= 102)
            && (48 <= t[2 * i + 1] <= 57 || 97 <= t[2 * i + 1] <= 102)
            && 16 * DigitValue(t[2 * i]) + DigitValue(t[2 * i + 1]) == b[i]
  {
    if i == 0 {
    } else {
      HexAt(b[1..], i - 1);
      assert Hex(b)[2..] == Hex(b[1..]);
      assert Hex(b)[2 * i] == Hex(b[1..])[2 * (i - 1)] && Hex(b)[2 * i + 1] == Hex(b[1..])[2 * (i - 1) + 1];
    }
  }

  function Decimal(n: nat): (t: seq<byte>)
    ensures t != []
  {
    if n < 10 then [48 + n] else Decimal(n / 10) + [48 + n % 10]
  }

  lemma {:induction false} DecimalInjective(m: nat, n: nat)
    requires Decimal(m) == Decimal(n)
    ensures m == n
  {
    var s, t := Decimal(m), Decimal(n);
    assert s[|s| - 1] == t[|t| - 1];
    if m >= 10 && n >= 10 {
      assert s[..|s| - 1] == Decimal(m / 10) && t[..|t| - 1] == Decimal(n / 10);
      DecimalInjective(m / 10, n / 10);
    }
  }

  /** The number a row of decimal digits denotes. */
  function FromDecimal(t: seq<byte>): int {
    if t == [] then 0 else 10 * FromDecimal(t[..|t| - 1]) + t[|t| - 1] - 48
  }

  /** A number prints as the digits that denote it, without leading zeros. */
  lemma {:induction false} DecimalReads(n: nat)
    ensures FromDecimal(Decimal(n)) == n
    ensures n > 0 ==> Decimal(n)[0] != 48
  {
    if n < 10 {
      assert Decimal(n)[..0] == [];
    } else {
      DecimalReads(n / 10);
      assert Decimal(n)[..|Decimal(n)| - 1] == Decimal(n / 10);
    }
  }

  /** Digits and lower-case hex letters: what numbers and hashes print as. */
  predicate Plain(t: seq<byte>) {
    forall i | 0 <= i < |t| :: 48 <= t[i] <= 57 || 97 <= t[i] <= 102
  }

  lemma {:induction false} DecimalIsPlain(n: nat)
    ensures Plain(Decimal(n))
  {
    if n < 10 {
    } else {
      DecimalIsPlain(n / 10);
    }
  }

  lemma {:induction false} HexIsPlain(b: seq<byte>)
    ensures Plain(Hex(b))
  {
    if b == [] {
    } else {
      HexIsPlain(b[1..]);
    }
  }

  // --- UTF-8 (section 4 of RFC 3629) ---

  predicate IsTail(b: byte) {
    0x80 <= b <= 0xBF
  }

  /** The length of the character at the front of `s`, or 0 if there is none. */
  function CharLength(s: seq<byte>): (n: nat)
    ensures n <= |s|
  {
    if s == [] then 0
    else if s[0] <= 0x7F then 1
    else if |s| >= 2 && 0xC2 <= s[0] <= 0xDF && IsTail(s[1]) then 2
    else if |s| >= 3 && IsTail(s[2])
            && ((s[0] == 0xE0 && 0xA0 <= s[1] <= 0xBF) || (0xE1 <= s[0] <= 0xEC && IsTail(s[1]))
                || (s[0] == 0xED && 0x80 <= s[1] <= 0x9F) || (0xEE <= s[0] <= 0xEF && IsTail(s[1])))
    then 3
    else if |s| >= 4 && IsTail(s[2]) && IsTail(s[3])
            && ((s[0] == 0xF0 && 0x90 <= s[1] <= 0xBF) || (0xF1 <= s[0] <= 0xF3 && IsTail(s[1]))
                || (s[0] == 0xF4 && 0x80 <= s[1] <= 0x8F))
    then 4
    else 0
  }

  predicate IsUtf8(s: seq<byte>)
    decreases |s|
  {
    s == [] || (CharLength(s) > 0 && IsUtf8(s[CharLength(s)..]))
  }

  /** A Unicode scalar value: any code point but a surrogate. */
  predicate IsScalar(cp: nat) {
    cp < 0xD800 || 0xE000 <= cp < 0x11_0000
  }

  function EncodeChar(cp: nat): seq<byte>
    requires IsScalar(cp)
  {
    if cp < 0x80 then [cp]
    else if cp < 0x800 then [0xC0 + cp / 64, 0x80 + cp % 64]
    else if cp < 0x1_0000 then [0xE0 + cp / 4096, 0x80 + cp / 64 % 64, 0x80 + cp % 64]
    else [0xF0 + cp / 262144, 0x80 + cp / 4096 % 64, 0x80 + cp / 64 % 64, 0x80 + cp % 64]
  }

  /** The encoding of every scalar value is read as one character, whatever follows. */
  lemma {:induction false} EncodedIsRead(cp: nat, rest: seq<byte>)
    requires IsScalar(cp)
    ensures CharLength(EncodeChar(cp) + rest) == |EncodeChar(cp)|
  {
    var e := EncodeChar(cp);
    var s := e + rest;
    assert forall i | 0 <= i < |e| :: s[i] == e[i];
    EncodedBytes(cp);
  }

  lemma {:induction false} EncodedBytes(cp: nat)
    requires IsScalar(cp)
    ensures var e := EncodeChar(cp);
            && (forall i | 0 < i < |e| :: IsTail(e[i]))
            && (|e| == 1 ==> e[0] <= 0x7F)
            && (|e| == 2 ==> 0xC2 <= e[0] <= 0xDF)
            && (|e| == 3 ==> 0xE0 <= e[0] <= 0xEF && (e[0] == 0xE0 ==> e[1] >= 0xA0) && (e[0] == 0xED ==> e[1] <= 0x9F))
            && (|e| == 4 ==> 0xF0 <= e[0] <= 0xF4 && (e[0] == 0xF0 ==> e[1] >= 0x90) && (e[0] == 0xF4 ==> e[1] <= 0x8F))
  {
  }

  lemma {:induction false} SixBits(q: nat, r: nat)
    requires r < 64
    ensures (q * 64 + r) / 64 == q && (q * 64 + r) % 64 == r
  {
  }

  lemma {:induction false} DivBy64Twice(n: nat)
    ensures n / 4096 == n / 64 / 64 && n / 262144 == n / 64 / 64 / 64
  {
  }

  /** A number from its groups of six bits, and back. */
  lemma {:induction false} Groups(a: nat, b: nat, c: nat, d: nat)
    requires b < 64 && c < 64 && d < 64
    ensures var n := a * 262144 + b * 4096 + c * 64 + d;
            n / 262144 == a && n / 4096 % 64 == b && n / 64 % 64 == c && n % 64 == d
  {
    var n := a * 262144 + b * 4096 + c * 64 + d;
    SixBits((a * 64 + b) * 64 + c, d);
    SixBits(a * 64 + b, c);
    SixBits(a, b);
    DivBy64Twice(n);
  }

  /** And nothing else is: what is read as a character is the encoding of a scalar value. */
  lemma {:induction false} ReadIsEncoded(s: seq<byte>) returns (cp: nat)
    requires CharLength(s) > 0
    ensures IsScalar(cp) && s[..CharLength(s)] == EncodeChar(cp)
  {
    var n := CharLength(s);
    if n == 1 {
      cp := s[0];
      assert s[..1] == [s[0]];
    } else if n == 2 {
      cp := ReadTwo(s[0], s[1]);
      assert s[..2] == [s[0], s[1]];
    } else if n == 3 {
      cp := ReadThree(s[0], s[1], s[2]);
      assert s[..3] == [s[0], s[1], s[2]];
    } else {
      cp := ReadFour(s[0], s[1], s[2], s[3]);
      assert s[..4] == [s[0], s[1], s[2], s[3]];
    }
  }

  lemma {:induction false} ReadTwo(a: byte, b: byte) returns (cp: nat)
    requires 0xC2 <= a <= 0xDF && IsTail(b)
    ensures IsScalar(cp) && [a, b] == EncodeChar(cp)
  {
    var x: int, y: int := a, b;
    cp := (x - 0xC0) * 64 + (y - 0x80);
    Groups(0, 0, x - 0xC0, y - 0x80);
  }

  lemma {:induction false} ReadThree(a: byte, b: byte, c: byte) returns (cp: nat)
    requires 0xE0 <= a <= 0xEF && IsTail(b) && IsTail(c) && (a == 0xE0 ==> b >= 0xA0) && (a == 0xED ==> b <= 0x9F)
    ensures IsScalar(cp) && [a, b, c] == EncodeChar(cp)
  {
    var x: int, y: int, z: int := a, b, c;
    cp := (x - 0xE0) * 4096 + (y - 0x80) * 64 + (z - 0x80);
    Groups(0, x - 0xE0, y - 0x80, z - 0x80);
  }

  lemma {:induction false} ReadFour(a: byte, b: byte, c: byte, d: byte) returns (cp: nat)
    requires 0xF0 <= a <= 0xF4 && IsTail(b) && IsTail(c) && IsTail(d)
    requires (a == 0xF0 ==> b >= 0x90) && (a == 0xF4 ==> b <= 0x8F)
    ensures IsScalar(cp) && [a, b, c, d] == EncodeChar(cp)
  {
    var x: int, y: int, z: int, w: int := a, b, c, d;
    cp := (x - 0xF0) * 262144 + (y - 0x80) * 4096 + (z - 0x80) * 64 + (w - 0x80);
    Groups(x - 0xF0, y - 0x80, z - 0x80, w - 0x80);
  }

  lemma {:induction false} AsciiIsUtf8(s: seq<byte>)
    requires forall i | 0 <= i < |s| :: s[i] <= 0x7F
    ensures IsUtf8(s)
  {
    if s == [] {
    } else {
      AsciiIsUtf8(s[1..]);
    }
  }

  /** A Rust `String`, by its bytes. */
  type Str = s: seq<byte> | IsUtf8(s)
}
