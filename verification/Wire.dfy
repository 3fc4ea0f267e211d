/**
  What a miner submits and what the verifier reads back (bee_shared/src/miner/mod.rs and
  bee_shared/src/verifier.rs): a 72-byte big-endian header, then Borsh values.
 */
module Wire {
  import opened Prelude
  import opened Bytes
  import opened Borsh
  import opened Leaf

  datatype SessionSubmit = SessionSubmit(root: seq<byte>, leavesCount: u64)

  datatype SessionProof = SessionProof(proof: seq<byte>, leavesTree: seq<seq<byte>>, leavesData: seq<ComputedLeaf>)

  /** The header: what the contract knows about the session. */
  datatype Header = Header(
    seed: seq<byte>,
    easyComplexity: u32,
    easyStart: u64,
    easyEnd: u64,
    hardComplexity: u32,
    hardStart: u64,
    hardEnd: u64)

  datatype Tail = Tail(
    easySubmit: SessionSubmit,
    hardSubmit: SessionSubmit,
    easyProof: SessionProof,
    hardFirst: SessionProof,
    hardRange: SessionProof,
    hardLast: SessionProof)

  /** `ParamsOfVerifySession`: the header with its seed as text, and the tail. */
  datatype Params = Params(seedText: Str, header: Header, tail: Tail)

  // --- Codecs ---

  function FromU32(n: u32): nat { n }

  function FromU64(n: u64): nat { n }

  function FromU128(n: u128): nat { n }

  function U32(): Codec<u32> { As(Num(4), AsU32, FromU32) }

  function U64(): Codec<u64> { As(Num(8), AsU64, FromU64) }

  function U128(): Codec<u128> { As(Num(16), AsU128, FromU128) }

  lemma {:induction false} U32Lawful()
    ensures Lawful(U32())
  {
    Widths();
    NumLawful(4);
    AsLawful(Num(4), AsU32, FromU32);
  }

  lemma {:induction false} U64Lawful()
    ensures Lawful(U64())
  {
    Widths();
    NumLawful(8);
    AsLawful(Num(8), AsU64, FromU64);
  }

  lemma {:induction false} U128Lawful()
    ensures Lawful(U128())
  {
    Widths();
    NumLawful(16);
    AsLawful(Num(16), AsU128, FromU128);
  }

  lemma {:induction false} IntegersLawful()
    ensures Lawful(U32()) && Lawful(U64()) && Lawful(U128())
  {
    U32Lawful();
    U64Lawful();
    U128Lawful();
  }

  type LeafFields = (u128, (u64, (Str, (u32, (u32, (u64, (u32, seq<byte>)))))))

  function ToLeaf(f: LeafFields): ComputedLeaf {
    ComputedLeaf(Leaf(f.0, f.1.0, f.1.1.0, f.1.1.1.0, f.1.1.1.1.0, f.1.1.1.1.1.0, f.1.1.1.1.1.1.0), f.1.1.1.1.1.1.1)
  }

  function FromLeaf(c: ComputedLeaf): LeafFields {
    var l := c.leaf;
    (l.index, (l.nonce, (l.seed, (l.x, (l.y, (l.timestamp, (l.complexity, c.hash)))))))
  }

  function LeafFieldsCodec(): Codec<LeafFields> {
    Pair(U128(), Pair(U64(), Pair(Text(), Pair(U32(), Pair(U32(), Pair(U64(), Pair(U32(), Blob())))))))
  }

  function LeafCodec(): Codec<ComputedLeaf> {
    As(LeafFieldsCodec(), ToLeaf, FromLeaf)
  }

  lemma {:induction false} LeafLawful()
    ensures Lawful(LeafCodec())
  {
    IntegersLawful();
    TextLawful();
    BlobLawful();
    PairLawful(U32(), Blob());
    PairLawful(U64(), Pair(U32(), Blob()));
    PairLawful(U32(), Pair(U64(), Pair(U32(), Blob())));
    PairLawful(U32(), Pair(U32(), Pair(U64(), Pair(U32(), Blob()))));
    PairLawful(Text(), Pair(U32(), Pair(U32(), Pair(U64(), Pair(U32(), Blob())))));
    PairLawful(U64(), Pair(Text(), Pair(U32(), Pair(U32(), Pair(U64(), Pair(U32(), Blob()))))));
    PairLawful(U128(), Pair(U64(), Pair(Text(), Pair(U32(), Pair(U32(), Pair(U64(), Pair(U32(), Blob())))))));
    AsLawful(LeafFieldsCodec(), ToLeaf, FromLeaf);
  }

  function ToSubmit(f: (seq<byte>, u64)): SessionSubmit {
    SessionSubmit(f.0, f.1)
  }

  function FromSubmit(s: SessionSubmit): (seq<byte>, u64) {
    (s.root, s.leavesCount)
  }

  function SubmitCodec(): Codec<SessionSubmit> {
    As(Pair(Blob(), U64()), ToSubmit, FromSubmit)
  }

  type ProofFields = (seq<byte>, (seq<seq<byte>>, seq<ComputedLeaf>))

  function ToProof(f: ProofFields): SessionProof {
    SessionProof(f.0, f.1.0, f.1.1)
  }

  function FromProof(p: SessionProof): ProofFields {
    (p.proof, (p.leavesTree, p.leavesData))
  }

  function ProofCodec(): Codec<SessionProof> {
    As(Pair(Blob(), Pair(List(Blob()), List(LeafCodec()))), ToProof, FromProof)
  }

  lemma {:induction false} SubmitAndProofLawful()
    ensures Lawful(SubmitCodec()) && Lawful(ProofCodec())
  {
    IntegersLawful();
    BlobLawful();
    LeafLawful();
    PairLawful(Blob(), U64());
    AsLawful(Pair(Blob(), U64()), ToSubmit, FromSubmit);
    ListLawful(Blob());
    ListLawful(LeafCodec());
    PairLawful(List(Blob()), List(LeafCodec()));
    PairLawful(Blob(), Pair(List(Blob()), List(LeafCodec())));
    AsLawful(Pair(Blob(), Pair(List(Blob()), List(LeafCodec()))), ToProof, FromProof);
  }

  type HeaderFields = (seq<byte>, (u32, (u64, (u64, (u32, (u64, u64))))))

  function ToHeader(f: HeaderFields): Header {
    Header(f.0, f.1.0, f.1.1.0, f.1.1.1.0, f.1.1.1.1.0, f.1.1.1.1.1.0, f.1.1.1.1.1.1)
  }

  function FromHeader(h: Header): HeaderFields {
    (h.seed, (h.easyComplexity, (h.easyStart, (h.easyEnd, (h.hardComplexity, (h.hardStart, h.hardEnd))))))
  }

  function BigU32(): Codec<u32> { As(Big(4), AsU32, FromU32) }

  function BigU64(): Codec<u64> { As(Big(8), AsU64, FromU64) }

  /** 32 bytes of seed, then 4 + 8 + 8 and 4 + 8 + 8 bytes of integers: 72 in all. */
  function HeaderCodec(): Codec<Header> {
    As(Pair(Raw(32), Pair(BigU32(), Pair(BigU64(), Pair(BigU64(), Pair(BigU32(), Pair(BigU64(), BigU64())))))),
       ToHeader, FromHeader)
  }

  lemma {:induction false} HeaderLawful()
    ensures Lawful(HeaderCodec())
  {
    Widths();
    BigLawful(4);
    BigLawful(8);
    RawLawful(32);
    AsLawful(Big(4), AsU32, FromU32);
    AsLawful(Big(8), AsU64, FromU64);
    var n, m := BigU32(), BigU64();
    PairLawful(m, m);
    PairLawful(n, Pair(m, m));
    PairLawful(m, Pair(n, Pair(m, m)));
    PairLawful(m, Pair(m, Pair(n, Pair(m, m))));
    PairLawful(n, Pair(m, Pair(m, Pair(n, Pair(m, m)))));
    PairLawful(Raw(32), Pair(n, Pair(m, Pair(m, Pair(n, Pair(m, m))))));
    AsLawful(Pair(Raw(32), Pair(n, Pair(m, Pair(m, Pair(n, Pair(m, m)))))), ToHeader, FromHeader);
  }

  type TailFields = (SessionSubmit, (SessionSubmit, (SessionProof, (SessionProof, (SessionProof, SessionProof)))))

  function ToTail(f: TailFields): Tail {
    Tail(f.0, f.1.0, f.1.1.0, f.1.1.1.0, f.1.1.1.1.0, f.1.1.1.1.1)
  }

  function FromTail(t: Tail): TailFields {
    (t.easySubmit, (t.hardSubmit, (t.easyProof, (t.hardFirst, (t.hardRange, t.hardLast)))))
  }

  /** `PartialVerifySession` over any codecs of its two kinds of field. */
  function TailOf(s: Codec<SessionSubmit>, p: Codec<SessionProof>): Codec<Tail> {
    As(Pair(s, Pair(s, Pair(p, Pair(p, Pair(p, p))))), ToTail, FromTail)
  }

  lemma {:induction false} TailLawful(s: Codec<SessionSubmit>, p: Codec<SessionProof>)
    requires Lawful(s) && Lawful(p)
    ensures Lawful(TailOf(s, p))
  {
    PairLawful(p, p);
    PairLawful(p, Pair(p, p));
    PairLawful(p, Pair(p, Pair(p, p)));
    PairLawful(s, Pair(p, Pair(p, Pair(p, p))));
    PairLawful(s, Pair(s, Pair(p, Pair(p, Pair(p, p)))));
    AsLawful(Pair(s, Pair(s, Pair(p, Pair(p, Pair(p, p))))), ToTail, FromTail);
  }

  // --- The message ---

  /** The seed as the miner and the verifier hash it. */
  function SeedText(seed: seq<byte>): Str {
    SeedTextIsUtf8(seed);
    [48, 120] + Hex(seed)
  }

  /** A seed in text form is ASCII, so it is a string whatever its bytes are. */
  lemma {:induction false} SeedTextIsUtf8(seed: seq<byte>)
    ensures IsUtf8([48, 120] + Hex(seed))
  {
    HexIsPlain(seed);
    AsciiIsUtf8([48, 120] + Hex(seed));
  }

  /** The seed's text: `0x`, and two hex digits for each byte, the high half first. */
  lemma {:induction false} SeedTextReads(seed: seq<byte>, i: nat)
    requires i < |seed|
    ensures var t := SeedText(seed);
            && |t| == 2 + 2 * |seed| && t[0] == '0' as int && t[1] == 'x' as int
            && (48 <= t[2 + 2 * i] <= 57 || 97 <= t[2 + 2 * i] <= 102)
            && (48 <= t[3 + 2 * i] <= 57 || 97 <= t[3 + 2 * i] <= 102)
            && 16 * DigitValue(t[2 + 2 * i]) + DigitValue(t[3 + 2 * i]) == seed[i]
  {
    HexAt(seed, i);
    var t := SeedText(seed);
    assert t[2 + 2 * i] == Hex(seed)[2 * i] && t[3 + 2 * i] == Hex(seed)[2 * i + 1];
  }

  function MessageCodec(): Codec<(Header, Tail)> {
    Pair(HeaderCodec(), TailOf(SubmitCodec(), ProofCodec()))
  }

  /** `ParamsOfVerifySession::try_from`. */
  function ParseMessage(b: seq<byte>): Option<Params> {
    match FromSlice(MessageCodec(), b)
    case None => None
    case Some(m) => Some(Params(SeedText(m.0.seed), m.0, m.1))
  }

  /** What can be put on the wire: every length in 32 bits, and a 32-byte seed. */
  predicate SubmitFits(s: SessionSubmit) {
    |s.root| < U32_LIMIT
  }

  predicate LeafFits(c: ComputedLeaf) {
    |c.leaf.seed| < U32_LIMIT && |c.hash| < U32_LIMIT
  }

  predicate ProofFits(p: SessionProof) {
    && |p.proof| < U32_LIMIT && |p.leavesTree| < U32_LIMIT && |p.leavesData| < U32_LIMIT
    && (forall i | 0 <= i < |p.leavesTree| :: |p.leavesTree[i]| < U32_LIMIT)
    && (forall i | 0 <= i < |p.leavesData| :: LeafFits(p.leavesData[i]))
  }

  predicate Writable(h: Header, t: Tail) {
    && |h.seed| == 32
    && SubmitFits(t.easySubmit) && SubmitFits(t.hardSubmit)
    && ProofFits(t.easyProof) && ProofFits(t.hardFirst) && ProofFits(t.hardRange) && ProofFits(t.hardLast)
  }

  /** The bytes of a verification call: header, both submits, then the four proofs, each list combined in order. */
  function MessageBytes(h: Header, t: Tail): seq<byte> {
    HeaderCodec().put(h)
    + (PutAll(SubmitCodec(), [t.easySubmit, t.hardSubmit])
       + PutAll(ProofCodec(), [t.easyProof, t.hardFirst, t.hardRange, t.hardLast]))
  }

  lemma {:induction false} PutTwo<T>(c: Codec<T>, x: T, y: T)
    ensures PutAll(c, [x, y]) == c.put(x) + c.put(y)
  {
    assert [x, y][1..] == [y] && [y][1..] == [];
    assert PutAll(c, [y]) == c.put(y) + [] == c.put(y);
  }

  lemma {:induction false} SixParts(a: seq<byte>, b: seq<byte>, c: seq<byte>, d: seq<byte>, e: seq<byte>, f: seq<byte>)
    ensures a + b + (c + d + (e + f)) == a + (b + (c + (d + (e + f))))
  {
  }

  /** The two combined lists are together one Borsh structure. */
  lemma {:induction false} TailIsConcatenation(s: Codec<SessionSubmit>, p: Codec<SessionProof>, t: Tail)
    ensures PutAll(s, [t.easySubmit, t.hardSubmit]) + PutAll(p, [t.easyProof, t.hardFirst, t.hardRange, t.hardLast])
            == TailOf(s, p).put(t)
  {
    PutTwo(s, t.easySubmit, t.hardSubmit);
    PutTwo(p, t.easyProof, t.hardFirst);
    PutTwo(p, t.hardRange, t.hardLast);
    PutAllAppend(p, [t.easyProof, t.hardFirst], [t.hardRange, t.hardLast]);
    assert [t.easyProof, t.hardFirst] + [t.hardRange, t.hardLast]
           == [t.easyProof, t.hardFirst, t.hardRange, t.hardLast];
    TailUnfold(s, p, t);
    SixParts(s.put(t.easySubmit), s.put(t.hardSubmit),
             p.put(t.easyProof), p.put(t.hardFirst), p.put(t.hardRange), p.put(t.hardLast));
  }

  lemma {:induction false} MessageLawful()
    ensures Lawful(MessageCodec())
  {
    HeaderLawful();
    SubmitAndProofLawful();
    TailLawful(SubmitCodec(), ProofCodec());
    PairLawful(HeaderCodec(), TailOf(SubmitCodec(), ProofCodec()));
  }

  /**
    Parsing undoes printing and printing undoes parsing: a byte string decodes to a header and
    structures exactly when it is their message; in particular nothing may follow the last proof.
   */
  lemma {:induction false} MessageRoundTrip(b: seq<byte>, h: Header, t: Tail)
    ensures ParseMessage(b) == Some(Params(SeedText(h.seed), h, t)) <==> Writable(h, t) && b == MessageBytes(h, t)
  {
    MessageLawful();
    FromSliceExact(MessageCodec(), b, (h, t));
    TailIsConcatenation(SubmitCodec(), ProofCodec(), t);
    OkHeader(h);
    TailUnfold(SubmitCodec(), ProofCodec(), t);
    SubmitOk(t.easySubmit);
    SubmitOk(t.hardSubmit);
    ProofOk(t.easyProof);
    ProofOk(t.hardFirst);
    ProofOk(t.hardRange);
    ProofOk(t.hardLast);
    PairUnfold(HeaderCodec(), TailOf(SubmitCodec(), ProofCodec()), h, t);
  }

  lemma {:induction false} OkHeader(h: Header)
    ensures HeaderCodec().ok(h) <==> |h.seed| == 32
  {
    var n, m := BigU32(), BigU64();
    BigIntegersOk(h.easyComplexity, h.easyStart);
    BigIntegersOk(h.hardComplexity, h.easyEnd);
    BigIntegersOk(h.hardComplexity, h.hardStart);
    BigIntegersOk(h.hardComplexity, h.hardEnd);
    var f := FromHeader(h);
    PairUnfold(m, m, h.hardStart, h.hardEnd);
    PairUnfold(n, Pair(m, m), h.hardComplexity, f.1.1.1.1.1);
    PairUnfold(m, Pair(n, Pair(m, m)), h.easyEnd, f.1.1.1.1);
    PairUnfold(m, Pair(m, Pair(n, Pair(m, m))), h.easyStart, f.1.1.1);
    PairUnfold(n, Pair(m, Pair(m, Pair(n, Pair(m, m)))), h.easyComplexity, f.1.1);
    PairUnfold(Raw(32), Pair(n, Pair(m, Pair(m, Pair(n, Pair(m, m))))), h.seed, f.1);
    AsUnfold(Pair(Raw(32), Pair(n, Pair(m, Pair(m, Pair(n, Pair(m, m)))))), ToHeader, FromHeader, h);
  }

  lemma {:induction false} BigIntegersOk(x: u32, y: u64)
    ensures BigU32().ok(x) && BigU64().ok(y)
  {
    Widths();
    AsUnfold(Big(4), AsU32, FromU32, x);
    AsUnfold(Big(8), AsU64, FromU64, y);
  }

  lemma {:induction false} TailUnfold(s: Codec<SessionSubmit>, p: Codec<SessionProof>, t: Tail)
    ensures TailOf(s, p).ok(t) <==>
            && s.ok(t.easySubmit) && s.ok(t.hardSubmit)
            && p.ok(t.easyProof) && p.ok(t.hardFirst) && p.ok(t.hardRange) && p.ok(t.hardLast)
    ensures TailOf(s, p).put(t) ==
            s.put(t.easySubmit) + (s.put(t.hardSubmit)
            + (p.put(t.easyProof) + (p.put(t.hardFirst) + (p.put(t.hardRange) + p.put(t.hardLast)))))
  {
    var f := FromTail(t);
    PairUnfold(p, p, t.hardRange, t.hardLast);
    PairUnfold(p, Pair(p, p), t.hardFirst, f.1.1.1.1);
    PairUnfold(p, Pair(p, Pair(p, p)), t.easyProof, f.1.1.1);
    PairUnfold(s, Pair(p, Pair(p, Pair(p, p))), t.hardSubmit, f.1.1);
    PairUnfold(s, Pair(s, Pair(p, Pair(p, Pair(p, p)))), t.easySubmit, f.1);
    AsUnfold(Pair(s, Pair(s, Pair(p, Pair(p, Pair(p, p))))), ToTail, FromTail, t);
  }

  lemma {:induction false} SubmitOk(s: SessionSubmit)
    ensures SubmitCodec().ok(s) <==> SubmitFits(s)
  {
    Widths();
    AsUnfold(Num(8), AsU64, FromU64, s.leavesCount);
    PairUnfold(Blob(), U64(), s.root, s.leavesCount);
    AsUnfold(Pair(Blob(), U64()), ToSubmit, FromSubmit, s);
  }

  lemma {:induction false} LeafOk(c: ComputedLeaf)
    ensures LeafCodec().ok(c) <==> LeafFits(c)
  {
    Widths();
    var l := c.leaf;
    AsUnfold(Num(4), AsU32, FromU32, l.complexity);
    AsUnfold(Num(8), AsU64, FromU64, l.timestamp);
    AsUnfold(Num(4), AsU32, FromU32, l.y);
    AsUnfold(Num(4), AsU32, FromU32, l.x);
    AsUnfold(Num(8), AsU64, FromU64, l.nonce);
    AsUnfold(Num(16), AsU128, FromU128, l.index);
    var f := FromLeaf(c);
    PairUnfold(U32(), Blob(), l.complexity, c.hash);
    PairUnfold(U64(), Pair(U32(), Blob()), l.timestamp, f.1.1.1.1.1.1);
    PairUnfold(U32(), Pair(U64(), Pair(U32(), Blob())), l.y, f.1.1.1.1.1);
    PairUnfold(U32(), Pair(U32(), Pair(U64(), Pair(U32(), Blob()))), l.x, f.1.1.1.1);
    PairUnfold(Text(), Pair(U32(), Pair(U32(), Pair(U64(), Pair(U32(), Blob())))), l.seed, f.1.1.1);
    PairUnfold(U64(), Pair(Text(), Pair(U32(), Pair(U32(), Pair(U64(), Pair(U32(), Blob()))))), l.nonce, f.1.1);
    PairUnfold(U128(), Pair(U64(), Pair(Text(), Pair(U32(), Pair(U32(), Pair(U64(), Pair(U32(), Blob())))))),
               l.index, f.1);
    AsUnfold(LeafFieldsCodec(), ToLeaf, FromLeaf, c);
  }

  lemma {:induction false} LeavesOk(data: seq<ComputedLeaf>)
    ensures AllOk(LeafCodec(), data) <==> forall i | 0 <= i < |data| :: LeafFits(data[i])
  {
    forall i | 0 <= i < |data| ensures LeafCodec().ok(data[i]) <==> LeafFits(data[i]) {
      LeafOk(data[i]);
    }
  }

  lemma {:induction false} BlobsOk(tree: seq<seq<byte>>)
    ensures AllOk(Blob(), tree) <==> forall i | 0 <= i < |tree| :: |tree[i]| < U32_LIMIT
  {
  }

  lemma {:induction false} ProofUnfold(tree: Codec<seq<seq<byte>>>, data: Codec<seq<ComputedLeaf>>, p: SessionProof)
    ensures As(Pair(Blob(), Pair(tree, data)), ToProof, FromProof).ok(p) <==>
            |p.proof| < U32_LIMIT && tree.ok(p.leavesTree) && data.ok(p.leavesData)
  {
    PairUnfold(tree, data, p.leavesTree, p.leavesData);
    PairUnfold(Blob(), Pair(tree, data), p.proof, (p.leavesTree, p.leavesData));
    AsUnfold(Pair(Blob(), Pair(tree, data)), ToProof, FromProof, p);
  }

  lemma {:induction false} ProofOk(p: SessionProof)
    ensures ProofCodec().ok(p) <==> ProofFits(p)
  {
    ProofUnfold(List(Blob()), List(LeafCodec()), p);
    ListUnfold(Blob(), p.leavesTree);
    ListUnfold(LeafCodec(), p.leavesData);
    LeavesOk(p.leavesData);
    BlobsOk(p.leavesTree);
  }

  /** The header's layout: 72 bytes, each field at its place. */
  lemma {:induction false} HeaderLayout(h: Header)
    requires |h.seed| == 32
    ensures HeaderCodec().put(h) ==
            h.seed + (BigEndian(h.easyComplexity, 4) + (BigEndian(h.easyStart, 8) + (BigEndian(h.easyEnd, 8)
            + (BigEndian(h.hardComplexity, 4) + (BigEndian(h.hardStart, 8) + BigEndian(h.hardEnd, 8))))))
    ensures |HeaderCodec().put(h)| == 72
  {
    var n, m := BigU32(), BigU64();
    BigIntegersPut(h.easyComplexity, h.easyStart);
    BigIntegersPut(h.hardComplexity, h.easyEnd);
    BigIntegersPut(h.hardComplexity, h.hardStart);
    BigIntegersPut(h.hardComplexity, h.hardEnd);
    var f := FromHeader(h);
    PairUnfold(m, m, h.hardStart, h.hardEnd);
    PairUnfold(n, Pair(m, m), h.hardComplexity, f.1.1.1.1.1);
    PairUnfold(m, Pair(n, Pair(m, m)), h.easyEnd, f.1.1.1.1);
    PairUnfold(m, Pair(m, Pair(n, Pair(m, m))), h.easyStart, f.1.1.1);
    PairUnfold(n, Pair(m, Pair(m, Pair(n, Pair(m, m)))), h.easyComplexity, f.1.1);
    PairUnfold(Raw(32), Pair(n, Pair(m, Pair(m, Pair(n, Pair(m, m))))), h.seed, f.1);
    AsUnfold(Pair(Raw(32), Pair(n, Pair(m, Pair(m, Pair(n, Pair(m, m)))))), ToHeader, FromHeader, h);
  }

  lemma {:induction false} BigIntegersPut(x: u32, y: u64)
    ensures BigU32().put(x) == BigEndian(x, 4) && BigU64().put(y) == BigEndian(y, 8)
  {
    AsUnfold(Big(4), AsU32, FromU32, x);
    AsUnfold(Big(8), AsU64, FromU64, y);
  }

  // --- Layout of the Borsh values, byte by byte ---

  /** A vector of bytes or a string: its length in four little-endian bytes, then its bytes. */
  function Prefixed(b: seq<byte>): seq<byte> {
    LittleEndian(|b|, 4) + b
  }

  function SubmitBytes(s: SessionSubmit): seq<byte> {
    Prefixed(s.root) + LittleEndian(s.leavesCount, 8)
  }

  function LeafBytes(c: ComputedLeaf): seq<byte> {
    LittleEndian(c.leaf.index, 16) + (LittleEndian(c.leaf.nonce, 8) + (Prefixed(c.leaf.seed)
    + (LittleEndian(c.leaf.x, 4) + (LittleEndian(c.leaf.y, 4) + (LittleEndian(c.leaf.timestamp, 8)
    + (LittleEndian(c.leaf.complexity, 4) + Prefixed(c.hash)))))))
  }

  function HashesBytes(hs: seq<seq<byte>>): seq<byte> {
    if hs == [] then [] else Prefixed(hs[0]) + HashesBytes(hs[1..])
  }

  function LeavesBytes(cs: seq<ComputedLeaf>): seq<byte> {
    if cs == [] then [] else LeafBytes(cs[0]) + LeavesBytes(cs[1..])
  }

  function ProofBytes(p: SessionProof): seq<byte> {
    Prefixed(p.proof) + ((LittleEndian(|p.leavesTree|, 4) + HashesBytes(p.leavesTree))
    + (LittleEndian(|p.leavesData|, 4) + LeavesBytes(p.leavesData)))
  }

  function HeaderBytes(h: Header): seq<byte> {
    h.seed + (BigEndian(h.easyComplexity, 4) + (BigEndian(h.easyStart, 8) + (BigEndian(h.easyEnd, 8)
    + (BigEndian(h.hardComplexity, 4) + (BigEndian(h.hardStart, 8) + BigEndian(h.hardEnd, 8))))))
  }

  lemma {:induction false} IntegersPut(x: u32, y: u64, z: u128)
    ensures U32().put(x) == LittleEndian(x, 4) && U64().put(y) == LittleEndian(y, 8)
    ensures U128().put(z) == LittleEndian(z, 16)
  {
    AsUnfold(Num(4), AsU32, FromU32, x);
    AsUnfold(Num(8), AsU64, FromU64, y);
    AsUnfold(Num(16), AsU128, FromU128, z);
  }

  lemma {:induction false} SubmitLayout(s: SessionSubmit)
    ensures SubmitCodec().put(s) == LittleEndian(|s.root|, 4) + s.root + LittleEndian(s.leavesCount, 8)
    ensures SubmitCodec().put(s) == SubmitBytes(s)
  {
    IntegersPut(0, s.leavesCount, 0);
    PairUnfold(Blob(), U64(), s.root, s.leavesCount);
    AsUnfold(Pair(Blob(), U64()), ToSubmit, FromSubmit, s);
  }

  lemma {:induction false} LeafLayout(c: ComputedLeaf)
    ensures LeafCodec().put(c) == LeafBytes(c)
  {
    var l := c.leaf;
    IntegersPut(l.complexity, l.timestamp, l.index);
    IntegersPut(l.x, l.nonce, l.index);
    IntegersPut(l.y, l.nonce, l.index);
    var f := FromLeaf(c);
    PairUnfold(U32(), Blob(), l.complexity, c.hash);
    PairUnfold(U64(), Pair(U32(), Blob()), l.timestamp, f.1.1.1.1.1.1);
    PairUnfold(U32(), Pair(U64(), Pair(U32(), Blob())), l.y, f.1.1.1.1.1);
    PairUnfold(U32(), Pair(U32(), Pair(U64(), Pair(U32(), Blob()))), l.x, f.1.1.1.1);
    PairUnfold(Text(), Pair(U32(), Pair(U32(), Pair(U64(), Pair(U32(), Blob())))), l.seed, f.1.1.1);
    PairUnfold(U64(), Pair(Text(), Pair(U32(), Pair(U32(), Pair(U64(), Pair(U32(), Blob()))))), l.nonce, f.1.1);
    PairUnfold(U128(), Pair(U64(), Pair(Text(), Pair(U32(), Pair(U32(), Pair(U64(), Pair(U32(), Blob())))))),
               l.index, f.1);
    AsUnfold(LeafFieldsCodec(), ToLeaf, FromLeaf, c);
  }

  lemma {:induction false} HashesLayout(hs: seq<seq<byte>>)
    ensures PutAll(Blob(), hs) == HashesBytes(hs)
  {
    if hs == [] {
    } else {
      HashesLayout(hs[1..]);
    }
  }

  lemma {:induction false} LeavesLayout(cs: seq<ComputedLeaf>)
    ensures PutAll(LeafCodec(), cs) == LeavesBytes(cs)
  {
    if cs == [] {
    } else {
      LeafLayout(cs[0]);
      LeavesLayout(cs[1..]);
    }
  }

  lemma {:induction false} ProofLayout(p: SessionProof)
    ensures ProofCodec().put(p) == ProofBytes(p)
  {
    HashesLayout(p.leavesTree);
    LeavesLayout(p.leavesData);
    ProofPut(List(Blob()), List(LeafCodec()), p);
    ListPut(Blob(), p.leavesTree);
    ListPut(LeafCodec(), p.leavesData);
  }

  lemma {:induction false} ListPut<T>(c: Codec<T>, xs: seq<T>)
    ensures List(c).put(xs) == LittleEndian(|xs|, 4) + PutAll(c, xs)
  {
  }

  lemma {:induction false} ProofPut(tree: Codec<seq<seq<byte>>>, data: Codec<seq<ComputedLeaf>>, p: SessionProof)
    ensures As(Pair(Blob(), Pair(tree, data)), ToProof, FromProof).put(p)
            == Prefixed(p.proof) + (tree.put(p.leavesTree) + data.put(p.leavesData))
  {
    PairUnfold(tree, data, p.leavesTree, p.leavesData);
    PairUnfold(Blob(), Pair(tree, data), p.proof, (p.leavesTree, p.leavesData));
    AsUnfold(Pair(Blob(), Pair(tree, data)), ToProof, FromProof, p);
  }

  /** The whole message, in terms of integers and byte strings only. */
  lemma {:induction false} MessageLayout(h: Header, t: Tail)
    requires |h.seed| == 32
    ensures MessageBytes(h, t) ==
            HeaderBytes(h) + (SubmitBytes(t.easySubmit) + (SubmitBytes(t.hardSubmit)
            + (ProofBytes(t.easyProof) + (ProofBytes(t.hardFirst)
            + (ProofBytes(t.hardRange) + ProofBytes(t.hardLast))))))
  {
    HeaderLayout(h);
    TailIsConcatenation(SubmitCodec(), ProofCodec(), t);
    TailUnfold(SubmitCodec(), ProofCodec(), t);
    SubmitLayout(t.easySubmit);
    SubmitLayout(t.hardSubmit);
    ProofLayout(t.easyProof);
    ProofLayout(t.hardFirst);
    ProofLayout(t.hardRange);
    ProofLayout(t.hardLast);
  }
}
