/** Leaves of a mining session and their two hash inputs (bee_shared/src/miner/leaf.rs). */
module Leaf {
  import opened Prelude
  import opened Bytes

  type Digest = d: seq<byte> | |d| == 32 witness seq(32, _ => 0)

  /** BLAKE3, uninterpreted: every result holds for every such function. */
  type Hasher = seq<byte> -> Digest

  const U128_MAX: u128 := 0xFFFF_FFFF_FFFF_FFFF_FFFF_FFFF_FFFF_FFFF

  datatype Leaf = Leaf(index: u128, nonce: u64, seed: Str, x: u32, y: u32, timestamp: u64, complexity: u32)

  datatype ComputedLeaf = ComputedLeaf(leaf: Leaf, hash: seq<byte>)

  /** `u128::MAX >> bits`; release builds mask the shift to 7 bits. */
  function Threshold(bits: u32): u128 {
    U128_MAX / Pow2(bits % 128)
  }

  /** The bytes `Leaf::compute` feeds to the hasher. */
  function Preimage(l: Leaf): seq<byte> {
    BigEndian(l.x, 4) + (BigEndian(l.y, 4) + (BigEndian(l.timestamp, 8) + (BigEndian(l.complexity, 4)
    + (l.seed
    + (BigEndian(l.index, 16) + BigEndian(l.nonce, 8))))))
  }

  function Compute(blake: Hasher, l: Leaf): ComputedLeaf {
    ComputedLeaf(l, blake(Preimage(l)))
  }

  /** The first 16 bytes as a number; a short hash gives the value no threshold exceeds. */
  function HashNum(c: ComputedLeaf): nat {
    if |c.hash| < 16 then U128_MAX else FromBigEndian(c.hash[..16])
  }

  predicate Verify(blake: Hasher, c: ComputedLeaf, seed: seq<byte>, complexity: u32) {
    && c.leaf.seed == seed && c.leaf.complexity == complexity
    && complexity < 128
    && c.hash == blake(Preimage(c.leaf))
    && HashNum(c) < Threshold(complexity)
  }

  // --- What the check of a leaf means ---

  /**
    The leaf is of this seed and complexity, carries its own hash, and that hash shows the work: its first 16
    bytes are a number that can be raised `complexity` bits without leaving the range below 2^128 - 1.
   */
  ghost predicate ShowsWork(blake: Hasher, c: ComputedLeaf, seed: seq<byte>, complexity: u32) {
    && c.leaf.seed == seed && c.leaf.complexity == complexity && complexity < 128
    && c.hash == blake(Preimage(c.leaf))
    && WorkShown(c.hash, complexity)
  }

  /** The number in the first 16 bytes, raised `complexity` bits, stays in the range. */
  ghost predicate WorkShown(hash: seq<byte>, complexity: u32) {
    |hash| >= 16 && (FromBigEndian(hash[..16]) + 1) * Pow2(complexity) <= U128_MAX
  }

  lemma {:induction false} BelowQuotient(n: nat, m: nat, p: nat)
    requires p > 0
    ensures n < m / p <==> (n + 1) * p <= m
  {
    var q := m / p;
    assert m == p * q + m % p;
    if n < q {
      Multiples(p, n + 1, q);
    } else {
      Multiples(p, q + 1, n + 1);
    }
  }

  lemma {:induction false} ThresholdMeans(n: nat, complexity: u32)
    requires complexity < 128
    ensures n < Threshold(complexity) <==> (n + 1) * Pow2(complexity) <= U128_MAX
  {
    assert complexity % 128 == complexity;
    BelowQuotient(n, U128_MAX, Pow2(complexity));
  }

  lemma {:induction false} WorkTest(c: ComputedLeaf, complexity: u32)
    requires complexity < 128 && |c.hash| == 32
    ensures HashNum(c) < Threshold(complexity) <==> WorkShown(c.hash, complexity)
  {
    ThresholdMeans(HashNum(c), complexity);
  }

  /** A leaf passes the check exactly when it shows the work. */
  lemma {:induction false} VerifyMeansWork(blake: Hasher, c: ComputedLeaf, seed: seq<byte>, complexity: u32)
    ensures Verify(blake, c, seed, complexity) <==> ShowsWork(blake, c, seed, complexity)
  {
    if complexity < 128 && |c.hash| == 32 {
      WorkTest(c, complexity);
    }
  }

  /** Where each field lies in the bytes hashed: four integers in front of the seed, two behind it. */
  lemma {:induction false} PreimageLayout(l: Leaf)
    ensures var b, n := Preimage(l), |l.seed|;
            && |b| == n + 44
            && FromBigEndian(b[..4]) == l.x && FromBigEndian(b[4..8]) == l.y
            && FromBigEndian(b[8..16]) == l.timestamp && FromBigEndian(b[16..20]) == l.complexity
            && b[20..20 + n] == l.seed
            && FromBigEndian(b[20 + n..36 + n]) == l.index && FromBigEndian(b[36 + n..]) == l.nonce
  {
    SevenParts(BigEndian(l.x, 4), BigEndian(l.y, 4), BigEndian(l.timestamp, 8), BigEndian(l.complexity, 4),
               l.seed, BigEndian(l.index, 16), BigEndian(l.nonce, 8));
    FieldsRead(l);
  }

  lemma {:induction false} SevenParts(
    x: seq<byte>, y: seq<byte>, t: seq<byte>, k: seq<byte>, s: seq<byte>, i: seq<byte>, n: seq<byte>)
    requires |x| == 4 && |y| == 4 && |t| == 8 && |k| == 4 && |i| == 16 && |n| == 8
    ensures var b := x + (y + (t + (k + (s + (i + n)))));
            && |b| == |s| + 44
            && b[..4] == x && b[4..8] == y && b[8..16] == t && b[16..20] == k && b[20..20 + |s|] == s
            && b[20 + |s|..36 + |s|] == i && b[36 + |s|..] == n
  {
    var b := x + (y + (t + (k + (s + (i + n)))));
    assert b[0..] == b;
    Cut(b, 0, x, y + (t + (k + (s + (i + n)))));
    Cut(b, 4, y, t + (k + (s + (i + n))));
    Cut(b, 8, t, k + (s + (i + n)));
    Cut(b, 16, k, s + (i + n));
    Cut(b, 20, s, i + n);
    Cut(b, 20 + |s|, i, n);
  }

  lemma {:induction false} Cut(b: seq<byte>, at: nat, p: seq<byte>, r: seq<byte>)
    requires at <= |b| && b[at..] == p + r
    ensures at + |p| <= |b| && b[at..at + |p|] == p && b[at + |p|..] == r
  {
    assert b[at..at + |p|] == b[at..][..|p|] && b[at + |p|..] == b[at..][|p|..];
  }

  lemma {:induction false} FieldsRead(l: Leaf)
    ensures FromBigEndian(BigEndian(l.x, 4)) == l.x && FromBigEndian(BigEndian(l.y, 4)) == l.y
    ensures FromBigEndian(BigEndian(l.timestamp, 8)) == l.timestamp
    ensures FromBigEndian(BigEndian(l.complexity, 4)) == l.complexity
    ensures FromBigEndian(BigEndian(l.index, 16)) == l.index && FromBigEndian(BigEndian(l.nonce, 8)) == l.nonce
  {
    Widths();
    BigEndianRoundTrip(l.x, 4);
    BigEndianRoundTrip(l.y, 4);
    BigEndianRoundTrip(l.timestamp, 8);
    BigEndianRoundTrip(l.complexity, 4);
    BigEndianRoundTrip(l.index, 16);
    BigEndianRoundTrip(l.nonce, 8);
  }

  // --- The text that `merkle_hash` hashes ---

  function Ascii(s: string): seq<byte>
    requires forall i | 0 <= i < |s| :: s[i] < 128 as char
  {
    seq(|s|, i requires 0 <= i < |s| => s[i] as int)
  }

  function FieldX(l: Leaf): seq<byte> { Ascii("x:") + Decimal(l.x) }

  function FieldY(l: Leaf): seq<byte> { Ascii("y:") + Decimal(l.y) }

  function FieldTime(l: Leaf): seq<byte> { Ascii("timestamp:") + Decimal(l.timestamp) }

  function FieldComplexity(l: Leaf): seq<byte> { Ascii("complexity:") + Decimal(l.complexity) }

  function FieldHash(c: ComputedLeaf): seq<byte> { Ascii("hash:") + Hex(c.hash) }

  function FieldIndex(l: Leaf): seq<byte> { Ascii("index:") + Decimal(l.index) }

  function FieldNonce(l: Leaf): seq<byte> { Ascii("nonce:") + Decimal(l.nonce) }

  /** From `seed:` to the end; the seed may hold any text. */
  function SeedAndRest(c: ComputedLeaf): seq<byte> {
    Ascii("seed:") + c.leaf.seed + [COMMA] + FieldX(c.leaf) + [COMMA] + FieldY(c.leaf) + [COMMA] + FieldTime(c.leaf)
    + [COMMA] + FieldComplexity(c.leaf) + [COMMA] + FieldHash(c)
  }

  function MerkleText(c: ComputedLeaf): seq<byte> {
    FieldIndex(c.leaf) + [COMMA] + (FieldNonce(c.leaf) + [COMMA] + SeedAndRest(c))
  }

  function MerkleHash(blake: Hasher, c: ComputedLeaf): Digest {
    blake(MerkleText(c))
  }

  // --- Injectivity ---

  lemma {:induction false} EqualFronts(p: seq<byte>, r: seq<byte>, q: seq<byte>, s: seq<byte>)
    requires |p| == |q| && p + r == q + s
    ensures p == q && r == s
  {
    assert p == (p + r)[..|p|] && q == (q + s)[..|q|] && r == (p + r)[|p|..] && s == (q + s)[|q|..];
  }

  /** What follows the seed, and the seed with it. */
  function Back(l: Leaf): seq<byte> {
    l.seed + (BigEndian(l.index, 16) + BigEndian(l.nonce, 8))
  }

  lemma {:induction false} BackInjective(a: Leaf, b: Leaf)
    requires Back(a) == Back(b)
    ensures a.seed == b.seed && a.index == b.index && a.nonce == b.nonce
  {
    Widths();
    EqualFronts(a.seed, BigEndian(a.index, 16) + BigEndian(a.nonce, 8),
                b.seed, BigEndian(b.index, 16) + BigEndian(b.nonce, 8));
    EqualFronts(BigEndian(a.index, 16), BigEndian(a.nonce, 8), BigEndian(b.index, 16), BigEndian(b.nonce, 8));
    BigEndianInjective(a.index, b.index, 16);
    BigEndianInjective(a.nonce, b.nonce, 8);
  }

  /** Fixed-width fields on both sides pin the seed in the middle. */
  lemma {:induction false} PreimageInjective(a: Leaf, b: Leaf)
    requires Preimage(a) == Preimage(b)
    ensures a == b
  {
    Widths();
    var a4, b4 := BigEndian(a.complexity, 4) + Back(a), BigEndian(b.complexity, 4) + Back(b);
    var a3, b3 := BigEndian(a.timestamp, 8) + a4, BigEndian(b.timestamp, 8) + b4;
    var a2, b2 := BigEndian(a.y, 4) + a3, BigEndian(b.y, 4) + b3;
    EqualFronts(BigEndian(a.x, 4), a2, BigEndian(b.x, 4), b2);
    EqualFronts(BigEndian(a.y, 4), a3, BigEndian(b.y, 4), b3);
    EqualFronts(BigEndian(a.timestamp, 8), a4, BigEndian(b.timestamp, 8), b4);
    EqualFronts(BigEndian(a.complexity, 4), Back(a), BigEndian(b.complexity, 4), Back(b));
    BigEndianInjective(a.x, b.x, 4);
    BigEndianInjective(a.y, b.y, 4);
    BigEndianInjective(a.timestamp, b.timestamp, 8);
    BigEndianInjective(a.complexity, b.complexity, 4);
    BackInjective(a, b);
  }

  /** A comma-free field before the first comma, or after the last, is determined. */
  lemma {:induction false} FirstField(p: seq<byte>, r: seq<byte>, q: seq<byte>, s: seq<byte>)
    requires COMMA !in p && COMMA !in q && p + [COMMA] + r == q + [COMMA] + s
    ensures p == q && r == s
  {
    var t := p + [COMMA] + r;
    assert forall i | 0 <= i < |p| :: t[i] == p[i];
    assert forall i | 0 <= i < |q| :: t[i] == q[i];
    assert t[|p|] == COMMA && t[|q|] == COMMA;
    EqualFronts(p + [COMMA], r, q + [COMMA], s);
    EqualFronts(p, [COMMA], q, [COMMA]);
  }

  lemma {:induction false} LastField(r: seq<byte>, p: seq<byte>, s: seq<byte>, q: seq<byte>)
    requires COMMA !in p && COMMA !in q && r + [COMMA] + p == s + [COMMA] + q
    ensures p == q && r == s
  {
    var t := r + [COMMA] + p;
    assert forall i | |r| < i < |t| :: t[i] == p[i - |r| - 1];
    assert forall i | |s| < i < |t| :: t[i] == q[i - |s| - 1];
    assert t[|r|] == COMMA && t[|s|] == COMMA;
    EqualFronts(r + [COMMA], p, s + [COMMA], q);
    EqualFronts(r, [COMMA], s, [COMMA]);
  }

  lemma {:induction false} LabelledNumber(tag: seq<byte>, m: nat, n: nat)
    requires COMMA !in tag
    ensures COMMA !in tag + Decimal(m)
    ensures tag + Decimal(m) == tag + Decimal(n) ==> m == n
  {
    DecimalIsPlain(m);
    if tag + Decimal(m) == tag + Decimal(n) {
      assert (tag + Decimal(m))[|tag|..] == Decimal(m) && (tag + Decimal(n))[|tag|..] == Decimal(n);
      DecimalInjective(m, n);
    }
  }

  lemma {:induction false} LabelledHash(a: ComputedLeaf, b: ComputedLeaf)
    ensures COMMA !in FieldHash(a)
    ensures FieldHash(a) == FieldHash(b) ==> a.hash == b.hash
  {
    HexIsPlain(a.hash);
    var tag := Ascii("hash:");
    if FieldHash(a) == FieldHash(b) {
      assert FieldHash(a)[|tag|..] == Hex(a.hash) && FieldHash(b)[|tag|..] == Hex(b.hash);
      HexInjective(a.hash, b.hash);
    }
  }

  /** Everything from the seed on is determined, read from the right. */
  lemma {:induction false} SeedAndRestInjective(a: ComputedLeaf, b: ComputedLeaf)
    requires SeedAndRest(a) == SeedAndRest(b)
    ensures a.hash == b.hash && a.leaf.seed == b.leaf.seed && a.leaf.x == b.leaf.x && a.leaf.y == b.leaf.y
    ensures a.leaf.timestamp == b.leaf.timestamp && a.leaf.complexity == b.leaf.complexity
  {
    var l, m := a.leaf, b.leaf;
    var a1, b1 := Ascii("seed:") + l.seed, Ascii("seed:") + m.seed;
    var a2, b2 := a1 + [COMMA] + FieldX(l), b1 + [COMMA] + FieldX(m);
    var a3, b3 := a2 + [COMMA] + FieldY(l), b2 + [COMMA] + FieldY(m);
    var a4, b4 := a3 + [COMMA] + FieldTime(l), b3 + [COMMA] + FieldTime(m);
    var a5, b5 := a4 + [COMMA] + FieldComplexity(l), b4 + [COMMA] + FieldComplexity(m);
    LabelledHash(a, b);
    LabelledHash(b, a);
    LastField(a5, FieldHash(a), b5, FieldHash(b));
    LabelledNumber(Ascii("complexity:"), l.complexity, m.complexity);
    LabelledNumber(Ascii("complexity:"), m.complexity, l.complexity);
    LastField(a4, FieldComplexity(l), b4, FieldComplexity(m));
    LabelledNumber(Ascii("timestamp:"), l.timestamp, m.timestamp);
    LabelledNumber(Ascii("timestamp:"), m.timestamp, l.timestamp);
    LastField(a3, FieldTime(l), b3, FieldTime(m));
    LabelledNumber(Ascii("y:"), l.y, m.y);
    LabelledNumber(Ascii("y:"), m.y, l.y);
    LastField(a2, FieldY(l), b2, FieldY(m));
    LabelledNumber(Ascii("x:"), l.x, m.x);
    LabelledNumber(Ascii("x:"), m.x, l.x);
    LastField(a1, FieldX(l), b1, FieldX(m));
    assert a1[5..] == l.seed && b1[5..] == m.seed;
  }

  /** The labelled text determines the leaf, even when the seed itself holds commas or labels. */
  lemma {:induction false} MerkleTextInjective(a: ComputedLeaf, b: ComputedLeaf)
    requires MerkleText(a) == MerkleText(b)
    ensures a == b
  {
    var l, m := a.leaf, b.leaf;
    LabelledNumber(Ascii("index:"), l.index, m.index);
    LabelledNumber(Ascii("index:"), m.index, l.index);
    FirstField(FieldIndex(l), FieldNonce(l) + [COMMA] + SeedAndRest(a),
               FieldIndex(m), FieldNonce(m) + [COMMA] + SeedAndRest(b));
    LabelledNumber(Ascii("nonce:"), l.nonce, m.nonce);
    LabelledNumber(Ascii("nonce:"), m.nonce, l.nonce);
    FirstField(FieldNonce(l), SeedAndRest(a), FieldNonce(m), SeedAndRest(b));
    SeedAndRestInjective(a, b);
  }

  // --- The text, read as fields ---

  /** What lies between commas. */
  function Fields(t: seq<byte>): (f: seq<seq<byte>>)
    ensures f != []
  {
    if t == [] then [[]]
    else if t[0] == COMMA then [[]] + Fields(t[1..])
    else
      var rest := Fields(t[1..]);
      [[t[0]] + rest[0]] + rest[1..]
  }

  lemma {:induction false} FieldsFront(a: seq<byte>, rest: seq<byte>)
    requires COMMA !in a
    ensures Fields(a + [COMMA] + rest) == [a] + Fields(rest)
  {
    if a == [] {
      assert (a + [COMMA] + rest)[1..] == rest;
    } else {
      assert (a + [COMMA] + rest)[1..] == a[1..] + [COMMA] + rest;
      FieldsFront(a[1..], rest);
      assert [a[0]] + a[1..] == a;
    }
  }

  lemma {:induction false} OneField(a: seq<byte>)
    requires COMMA !in a
    ensures Fields(a) == [a]
  {
    if a == [] {
    } else {
      OneField(a[1..]);
      assert [a[0]] + a[1..] == a;
    }
  }

  /** With a seed free of commas the text is eight labelled fields, in this order. */
  lemma {:induction false} MerkleTextFields(c: ComputedLeaf)
    requires COMMA !in c.leaf.seed
    ensures var l := c.leaf;
            Fields(MerkleText(c)) == [
              Ascii("index:") + Decimal(l.index),
              Ascii("nonce:") + Decimal(l.nonce),
              Ascii("seed:") + l.seed,
              Ascii("x:") + Decimal(l.x),
              Ascii("y:") + Decimal(l.y),
              Ascii("timestamp:") + Decimal(l.timestamp),
              Ascii("complexity:") + Decimal(l.complexity),
              Ascii("hash:") + Hex(c.hash)]
  {
    var l := c.leaf;
    var seed := Ascii("seed:") + l.seed;
    assert SeedAndRest(c) == seed + [COMMA] + (FieldX(l) + [COMMA] + (FieldY(l) + [COMMA] + (FieldTime(l)
                             + [COMMA] + (FieldComplexity(l) + [COMMA] + FieldHash(c))))) by {
      FiveCommas(seed, FieldX(l), FieldY(l), FieldTime(l), FieldComplexity(l), FieldHash(c));
    }
    FieldsArePlain(c);
    EightFields(FieldIndex(l), FieldNonce(l), seed, FieldX(l), FieldY(l), FieldTime(l), FieldComplexity(l),
                FieldHash(c));
  }

  lemma {:induction false} FiveCommas(
    s: seq<byte>, x: seq<byte>, y: seq<byte>, t: seq<byte>, k: seq<byte>, h: seq<byte>)
    ensures s + [COMMA] + x + [COMMA] + y + [COMMA] + t + [COMMA] + k + [COMMA] + h
            == s + [COMMA] + (x + [COMMA] + (y + [COMMA] + (t + [COMMA] + (k + [COMMA] + h))))
  {
  }

  lemma {:induction false} EightFields(
    i: seq<byte>, n: seq<byte>, s: seq<byte>, x: seq<byte>, y: seq<byte>, t: seq<byte>, k: seq<byte>, h: seq<byte>)
    requires COMMA !in i && COMMA !in n && COMMA !in s && COMMA !in x && COMMA !in y && COMMA !in t
    requires COMMA !in k && COMMA !in h
    ensures Fields(i + [COMMA] + (n + [COMMA] + (s + [COMMA] + (x + [COMMA] + (y + [COMMA]
                   + (t + [COMMA] + (k + [COMMA] + h))))))) == [i, n, s, x, y, t, k, h]
  {
    var t6 := k + [COMMA] + h;
    var t5 := t + [COMMA] + t6;
    var t4 := y + [COMMA] + t5;
    var t3 := x + [COMMA] + t4;
    var t2 := s + [COMMA] + t3;
    OneField(h);
    FieldsFront(k, h);
    FieldsFront(t, t6);
    FieldsFront(y, t5);
    FieldsFront(x, t4);
    FieldsFront(s, t3);
    FieldsFront(n, t2);
    FieldsFront(i, n + [COMMA] + t2);
  }

  lemma {:induction false} FieldsArePlain(c: ComputedLeaf)
    ensures var l := c.leaf;
            && COMMA !in FieldIndex(l) && COMMA !in FieldNonce(l) && COMMA !in FieldX(l) && COMMA !in FieldY(l)
            && COMMA !in FieldTime(l) && COMMA !in FieldComplexity(l) && COMMA !in FieldHash(c)
  {
    var l := c.leaf;
    LabelledNumber(Ascii("index:"), l.index, l.index);
    LabelledNumber(Ascii("nonce:"), l.nonce, l.nonce);
    LabelledNumber(Ascii("x:"), l.x, l.x);
    LabelledNumber(Ascii("y:"), l.y, l.y);
    LabelledNumber(Ascii("timestamp:"), l.timestamp, l.timestamp);
    LabelledNumber(Ascii("complexity:"), l.complexity, l.complexity);
    LabelledHash(c, c);
  }
}
