/**
  Borsh values as codecs. A lawful codec is a bijection between the values it can write and the
  byte strings it can read: reading undoes writing, and writing undoes reading, whatever follows.
 */
module Borsh {
  import opened Prelude
  import opened Bytes

  datatype Parsed<+T> = Parsed(value: T, rest: seq<byte>)

  /** `ok` says which values the writer accepts: lengths must fit 32 bits. */
  datatype Codec<!T> = Codec(ok: T -> bool, put: T -> seq<byte>, get: seq<byte> -> Option<Parsed<T>>)

  ghost predicate ReadsBack<T>(c: Codec<T>, x: T, rest: seq<byte>) {
    c.get(c.put(x) + rest) == Some(Parsed(x, rest))
  }

  ghost predicate WritesBack<T>(c: Codec<T>, b: seq<byte>) {
    c.get(b).Some? ==> c.ok(c.get(b).value.value) && b == c.put(c.get(b).value.value) + c.get(b).value.rest
  }

  ghost predicate Lawful<T(!new)>(c: Codec<T>) {
    && (forall x, rest | c.ok(x) :: ReadsBack(c, x, rest))
    && (forall b :: WritesBack(c, b))
  }

  // --- Integers ---

  function GetNum(w: nat, b: seq<byte>): Option<Parsed<nat>> {
    if |b| < w then None else Some(Parsed(FromLittleEndian(b[..w]), b[w..]))
  }

  function Num(w: nat): Codec<nat> {
    Codec(n => n < Pow256(w), n => LittleEndian(n, w), b => GetNum(w, b))
  }

  lemma {:induction false} NumLawful(w: nat)
    ensures Lawful(Num(w))
  {
    forall n: nat, rest | n < Pow256(w) ensures ReadsBack(Num(w), n, rest) {
      LittleEndianRoundTrip(n, w);
      assert (LittleEndian(n, w) + rest)[..w] == LittleEndian(n, w);
    }
    forall b ensures WritesBack(Num(w), b) {
      if |b| >= w {
        FromLittleEndianRoundTrip(b[..w]);
      }
    }
  }

  /** Big-endian integers, as `from_be_bytes` reads them. */
  function GetBig(w: nat, b: seq<byte>): Option<Parsed<nat>> {
    if |b| < w then None else Some(Parsed(FromBigEndian(b[..w]), b[w..]))
  }

  function Big(w: nat): Codec<nat> {
    Codec(n => n < Pow256(w), n => BigEndian(n, w), b => GetBig(w, b))
  }

  lemma {:induction false} BigLawful(w: nat)
    ensures Lawful(Big(w))
  {
    forall n: nat, rest | n < Pow256(w) ensures ReadsBack(Big(w), n, rest) {
      BigEndianRoundTrip(n, w);
      assert (BigEndian(n, w) + rest)[..w] == BigEndian(n, w);
    }
    forall b ensures WritesBack(Big(w), b) {
      if |b| >= w {
        FromBigEndianRoundTrip(b[..w]);
      }
    }
  }

  // --- Byte vectors and strings ---

  /** A fixed number of bytes. */
  function GetRaw(w: nat, b: seq<byte>): Option<Parsed<seq<byte>>> {
    if |b| < w then None else Some(Parsed(b[..w], b[w..]))
  }

  function Raw(w: nat): Codec<seq<byte>> {
    Codec(s => |s| == w, s => s, b => GetRaw(w, b))
  }

  lemma {:induction false} RawLawful(w: nat)
    ensures Lawful(Raw(w))
  {
    forall s: seq<byte>, rest | |s| == w ensures ReadsBack(Raw(w), s, rest) {
      assert (s + rest)[..w] == s && (s + rest)[w..] == rest;
    }
    forall b ensures WritesBack(Raw(w), b) {
    }
  }

  function GetBlob(b: seq<byte>): Option<Parsed<seq<byte>>> {
    match GetNum(4, b)
    case None => None
    case Some(p) => if |p.rest| < p.value then None else Some(Parsed(p.rest[..p.value], p.rest[p.value..]))
  }

  function Blob(): Codec<seq<byte>> {
    Codec(s => |s| < U32_LIMIT, s => LittleEndian(|s|, 4) + s, b => GetBlob(b))
  }

  lemma {:induction false} BlobLawful()
    ensures Lawful(Blob())
  {
    Widths();
    NumLawful(4);
    forall s: seq<byte>, rest | |s| < U32_LIMIT ensures ReadsBack(Blob(), s, rest) {
      assert ReadsBack(Num(4), |s|, s + rest);
      assert LittleEndian(|s|, 4) + s + rest == LittleEndian(|s|, 4) + (s + rest);
    }
    forall b ensures WritesBack(Blob(), b) {
      assert WritesBack(Num(4), b);
      if GetBlob(b).Some? {
        var p := GetNum(4, b).value;
        assert p.rest == p.rest[..p.value] + p.rest[p.value..];
      }
    }
  }

  function GetText(b: seq<byte>): Option<Parsed<Str>> {
    match GetBlob(b)
    case None => None
    case Some(p) => if IsUtf8(p.value) then Some(Parsed(p.value, p.rest)) else None
  }

  function Text(): Codec<Str> {
    Codec((s: Str) => |s| < U32_LIMIT, (s: Str) => LittleEndian(|s|, 4) + s, b => GetText(b))
  }

  lemma {:induction false} TextLawful()
    ensures Lawful(Text())
  {
    BlobLawful();
    forall s: Str, rest | |s| < U32_LIMIT ensures ReadsBack(Text(), s, rest) {
      assert ReadsBack(Blob(), s, rest);
    }
    forall b ensures WritesBack(Text(), b) {
      assert WritesBack(Blob(), b);
    }
  }

  // --- Structures ---

  function GetPair<A, B>(a: Codec<A>, b: Codec<B>, bytes: seq<byte>): Option<Parsed<(A, B)>> {
    match a.get(bytes)
    case None => None
    case Some(p) =>
      match b.get(p.rest)
      case None => None
      case Some(q) => Some(Parsed((p.value, q.value), q.rest))
  }

  function Pair<A, B>(a: Codec<A>, b: Codec<B>): Codec<(A, B)> {
    Codec((x: (A, B)) => a.ok(x.0) && b.ok(x.1), (x: (A, B)) => a.put(x.0) + b.put(x.1), bytes => GetPair(a, b, bytes))
  }

  lemma {:induction false} PairUnfold<A, B>(a: Codec<A>, b: Codec<B>, x: A, y: B)
    ensures Pair(a, b).ok((x, y)) <==> a.ok(x) && b.ok(y)
    ensures Pair(a, b).put((x, y)) == a.put(x) + b.put(y)
  {
  }

  lemma {:induction false} PairLawful<A(!new), B(!new)>(a: Codec<A>, b: Codec<B>)
    requires Lawful(a) && Lawful(b)
    ensures Lawful(Pair(a, b))
  {
    var c := Pair(a, b);
    forall x: (A, B), rest | c.ok(x) ensures ReadsBack(c, x, rest) {
      assert ReadsBack(a, x.0, b.put(x.1) + rest) && ReadsBack(b, x.1, rest);
      assert a.put(x.0) + b.put(x.1) + rest == a.put(x.0) + (b.put(x.1) + rest);
    }
    forall bytes ensures WritesBack(c, bytes) {
      assert WritesBack(a, bytes);
      if c.get(bytes).Some? {
        var p := a.get(bytes).value;
        assert WritesBack(b, p.rest);
        var q := b.get(p.rest).value;
        assert a.put(p.value) + b.put(q.value) + q.rest == a.put(p.value) + (b.put(q.value) + q.rest);
      }
    }
  }

  // --- Vectors ---

  function PutAll<T>(c: Codec<T>, xs: seq<T>): seq<byte> {
    if xs == [] then [] else c.put(xs[0]) + PutAll(c, xs[1..])
  }

  function GetAll<T>(c: Codec<T>, n: nat, b: seq<byte>): Option<Parsed<seq<T>>> {
    if n == 0 then Some(Parsed([], b))
    else
      match c.get(b)
      case None => None
      case Some(p) =>
        match GetAll(c, n - 1, p.rest)
        case None => None
        case Some(q) => Some(Parsed([p.value] + q.value, q.rest))
  }

  function GetList<T>(c: Codec<T>, b: seq<byte>): Option<Parsed<seq<T>>> {
    match GetNum(4, b)
    case None => None
    case Some(p) => GetAll(c, p.value, p.rest)
  }

  predicate AllOk<T>(c: Codec<T>, xs: seq<T>) {
    forall i | 0 <= i < |xs| :: c.ok(xs[i])
  }

  function List<T>(c: Codec<T>): Codec<seq<T>> {
    Codec((xs: seq<T>) => |xs| < U32_LIMIT && AllOk(c, xs),
          (xs: seq<T>) => LittleEndian(|xs|, 4) + PutAll(c, xs),
          b => GetList(c, b))
  }

  lemma {:induction false} AllReadsBack<T(!new)>(c: Codec<T>, xs: seq<T>, rest: seq<byte>)
    requires Lawful(c) && AllOk(c, xs)
    ensures GetAll(c, |xs|, PutAll(c, xs) + rest) == Some(Parsed(xs, rest))
  {
    if xs != [] {
      AllReadsBack(c, xs[1..], rest);
      assert ReadsBack(c, xs[0], PutAll(c, xs[1..]) + rest);
      assert PutAll(c, xs) + rest == c.put(xs[0]) + (PutAll(c, xs[1..]) + rest);
      assert [xs[0]] + xs[1..] == xs;
    } else {
      assert PutAll(c, xs) + rest == rest;
    }
  }

  lemma {:induction false} AllWritesBack<T(!new)>(c: Codec<T>, n: nat, b: seq<byte>)
    requires Lawful(c) && GetAll(c, n, b).Some?
    ensures var p := GetAll(c, n, b).value;
            |p.value| == n && AllOk(c, p.value) && b == PutAll(c, p.value) + p.rest
  {
    if n == 0 {
    } else {
      assert WritesBack(c, b);
      var p := c.get(b).value;
      AllWritesBack(c, n - 1, p.rest);
      var q := GetAll(c, n - 1, p.rest).value;
      assert ([p.value] + q.value)[1..] == q.value;
      assert c.put(p.value) + (PutAll(c, q.value) + q.rest) == c.put(p.value) + PutAll(c, q.value) + q.rest;
    }
  }

  lemma {:induction false} ListUnfold<T>(c: Codec<T>, xs: seq<T>)
    ensures List(c).ok(xs) <==> |xs| < U32_LIMIT && AllOk(c, xs)
  {
  }

  lemma {:induction false} ListReadsBack<T(!new)>(c: Codec<T>, xs: seq<T>, rest: seq<byte>)
    requires Lawful(c) && |xs| < U32_LIMIT && AllOk(c, xs)
    ensures ReadsBack(List(c), xs, rest)
  {
    var front, back := LittleEndian(|xs|, 4), PutAll(c, xs) + rest;
    assert |front| == 4 && FromLittleEndian(front) == |xs| by {
      Widths();
      LittleEndianRoundTrip(|xs|, 4);
    }
    assert (front + back)[..4] == front && (front + back)[4..] == back;
    assert front + PutAll(c, xs) + rest == front + back;
    AllReadsBack(c, xs, rest);
  }

  lemma {:induction false} ListWritesBack<T(!new)>(c: Codec<T>, b: seq<byte>)
    requires Lawful(c)
    ensures WritesBack(List(c), b)
  {
    if GetList(c, b).Some? {
      Widths();
      FromLittleEndianRoundTrip(b[..4]);
      var n := FromLittleEndian(b[..4]);
      AllWritesBack(c, n, b[4..]);
      var q := GetAll(c, n, b[4..]).value;
      assert b == b[..4] + b[4..];
      assert b[..4] + (PutAll(c, q.value) + q.rest) == b[..4] + PutAll(c, q.value) + q.rest;
    }
  }

  lemma {:induction false} ListLawful<T(!new)>(c: Codec<T>)
    requires Lawful(c)
    ensures Lawful(List(c))
  {
    forall xs: seq<T>, rest | List(c).ok(xs) ensures ReadsBack(List(c), xs, rest) {
      ListReadsBack(c, xs, rest);
    }
    forall b ensures WritesBack(List(c), b) {
      ListWritesBack(c, b);
    }
  }

  // --- Renaming a structure's fields ---

  function GetAs<A, B>(a: Codec<A>, to: A -> B, b: seq<byte>): Option<Parsed<B>> {
    match a.get(b)
    case None => None
    case Some(p) => Some(Parsed(to(p.value), p.rest))
  }

  function As<A, B>(a: Codec<A>, to: A -> B, from: B -> A): Codec<B> {
    Codec(y => a.ok(from(y)), y => a.put(from(y)), b => GetAs(a, to, b))
  }

  lemma {:induction false} AsUnfold<A, B>(a: Codec<A>, to: A -> B, from: B -> A, y: B)
    ensures As(a, to, from).ok(y) <==> a.ok(from(y))
    ensures As(a, to, from).put(y) == a.put(from(y))
  {
  }

  lemma {:induction false} AsLawful<A(!new), B(!new)>(a: Codec<A>, to: A -> B, from: B -> A)
    requires Lawful(a)
    requires forall y :: a.ok(from(y)) ==> to(from(y)) == y
    requires forall x :: a.ok(x) ==> from(to(x)) == x
    ensures Lawful(As(a, to, from))
  {
    forall y, rest | a.ok(from(y)) ensures ReadsBack(As(a, to, from), y, rest) {
      assert ReadsBack(a, from(y), rest);
    }
    forall b ensures WritesBack(As(a, to, from), b) {
      assert WritesBack(a, b);
    }
  }

  // --- Whole messages ---

  /** `borsh::from_slice`: nothing may be left over. */
  function FromSlice<T>(c: Codec<T>, b: seq<byte>): Option<T> {
    match c.get(b)
    case None => None
    case Some(p) => if p.rest == [] then Some(p.value) else None
  }

  /** Reading a whole slice succeeds with x exactly on the bytes that write x. */
  lemma {:induction false} FromSliceExact<T(!new)>(c: Codec<T>, b: seq<byte>, x: T)
    requires Lawful(c)
    ensures FromSlice(c, b) == Some(x) <==> c.ok(x) && b == c.put(x)
  {
    if c.ok(x) && b == c.put(x) {
      assert ReadsBack(c, x, []);
      assert c.put(x) + [] == b;
    }
    assert WritesBack(c, b);
    if FromSlice(c, b).Some? {
      assert c.put(c.get(b).value.value) + [] == c.put(c.get(b).value.value);
    }
  }

  /** `combine_bytes`: the values' bytes in order, refused if any of them cannot be written. */
  method CombineBytes<T(!new)>(c: Codec<T>, args: seq<T>) returns (r: Option<seq<byte>>)
    ensures r == if AllOk(c, args) then Some(PutAll(c, args)) else None
  {
    var combined: seq<byte> := [];
    for i := 0 to |args|
      invariant AllOk(c, args[..i])
      invariant combined == PutAll(c, args[..i])
    {
      assert args[..i + 1] == args[..i] + [args[i]];
      if !c.ok(args[i]) {
        return None;
      }
      PutAllAppend(c, args[..i], [args[i]]);
      combined := combined + c.put(args[i]);
    }
    assert args[..|args|] == args;
    r := Some(combined);
  }

  lemma {:induction false} PutAllAppend<T>(c: Codec<T>, xs: seq<T>, ys: seq<T>)
    ensures PutAll(c, xs + ys) == PutAll(c, xs) + PutAll(c, ys)
  {
    if xs == [] {
      assert xs + ys == ys;
    } else {
      PutAllAppend(c, xs[1..], ys);
      assert (xs + ys)[1..] == xs[1..] + ys;
    }
  }
}
