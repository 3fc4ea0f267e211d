/**
  The Merkle tree the miner commits to and the window proofs the verifier checks, over any pair
  hash `h`. A parent is the hash of its two children, a lone right-most node moves up unchanged,
  and a window proof lists the missing siblings layer by layer, bottom up, left before right.
 */
module Merkle {
  import opened Prelude

  /** The layer above. */
  function Up<T>(h: (T, T) -> T, layer: seq<T>): seq<T> {
    seq((|layer| + 1) / 2, i requires 0 <= i < (|layer| + 1) / 2 =>
      if 2 * i + 1 < |layer| then h(layer[2 * i], layer[2 * i + 1]) else layer[2 * i])
  }

  function Root<T>(h: (T, T) -> T, layer: seq<T>): T
    requires layer != []
    decreases |layer|
  {
    if |layer| == 1 then layer[0] else Root(h, Up(h, layer))
  }

  /** The window [lo, hi) of a layer of n nodes, widened to whole pairs. */
  function WideLo(lo: nat): nat {
    if lo % 2 == 1 then lo - 1 else lo
  }

  function WideHi(n: nat, hi: nat): nat {
    if hi % 2 == 1 && hi < n then hi + 1 else hi
  }

  /** How many proof hashes the row takes on the left and in all. */
  function LeftCost(lo: nat): nat {
    lo - WideLo(lo)
  }

  function Cost(n: nat, lo: nat, hi: nat): nat {
    LeftCost(lo) + (WideHi(n, hi) - hi)
  }

  /** The chunk at [lo, hi) with the hashes that widen it to whole pairs. */
  function Widen<T>(n: nat, lo: nat, hi: nat, chunk: seq<T>, proof: seq<T>): (wide: seq<T>)
    requires |proof| >= Cost(n, lo, hi)
    ensures |wide| == |chunk| + Cost(n, lo, hi)
  {
    proof[..LeftCost(lo)] + chunk + proof[LeftCost(lo)..Cost(n, lo, hi)]
  }

  /** The siblings the window [lo, hi) misses in its own row. */
  function RowHashes<T>(layer: seq<T>, lo: nat, hi: nat): (r: seq<T>)
    requires lo < hi <= |layer|
    ensures |r| == Cost(|layer|, lo, hi)
  {
    layer[WideLo(lo)..lo] + layer[hi..WideHi(|layer|, hi)]
  }

  /** The hashes that prove leaves [lo, hi). */
  function WindowProof<T>(h: (T, T) -> T, layer: seq<T>, lo: nat, hi: nat): seq<T>
    requires lo < hi <= |layer|
    decreases |layer|
  {
    if |layer| == 1 then []
    else
      RowHashes(layer, lo, hi) + WindowProof(h, Up(h, layer), lo / 2, (hi + 1) / 2)
  }

  /** A widened window has as many parents as its parents' window is long. */
  lemma {:induction false} WideCount(n: nat, lo: nat, hi: nat)
    requires lo < hi <= n && n > 1
    ensures lo / 2 < (hi + 1) / 2 <= (n + 1) / 2 < n
    ensures (hi - lo + Cost(n, lo, hi) + 1) / 2 == (hi + 1) / 2 - lo / 2
  {
  }

  /**
    The root recomputed from the chunk at [lo, hi) of n leaves and a list of proof hashes, taken in order;
    `None` when hashes run out.
   */
  function Recompute<T>(h: (T, T) -> T, n: nat, lo: nat, hi: nat, chunk: seq<T>, proof: seq<T>): Option<T>
    requires lo < hi <= n && |chunk| == hi - lo
    decreases n
  {
    if n == 1 then Some(chunk[0])
    else if |proof| < Cost(n, lo, hi) then None
    else
      WideCount(n, lo, hi);
      Recompute(h, (n + 1) / 2, lo / 2, (hi + 1) / 2, Up(h, Widen(n, lo, hi, chunk, proof)), proof[Cost(n, lo, hi)..])
  }

  /** Rows above the leaves. */
  function Height(n: nat): nat {
    if n <= 1 then 0 else 1 + Height((n + 1) / 2)
  }

  function ProofSize(n: nat, lo: nat, hi: nat): nat
    requires lo < hi <= n
  {
    if n == 1 then 0 else Cost(n, lo, hi) + ProofSize((n + 1) / 2, lo / 2, (hi + 1) / 2)
  }

  // --- What a root is ---

  /**
    A root, from the leaves down: the leaf itself, or the hash of the root of the left part, which is as long
    as the greatest power of two below the count, and the root of the rest. This fixes the order of children
    and where a lone node moves up, for every leaf count.
   */
  lemma {:induction false} RootSplits<T>(h: (T, T) -> T, s: seq<T>, j: nat)
    requires Pow2(j) < |s| <= 2 * Pow2(j)
    ensures Root(h, s) == h(Root(h, s[..Pow2(j)]), Root(h, s[Pow2(j)..]))
    decreases j
  {
    if j == 0 {
      RootOfTwo(h, s);
    } else {
      var half, up := Pow2(j - 1), Up(h, s);
      UpSplits(h, s, half);
      RootSplits(h, up, j - 1);
      RootOfUp(h, s);
      RootOfUp(h, s[..2 * half]);
      RootOfUp(h, s[2 * half..]);
    }
  }

  lemma {:induction false} RootOfTwo<T>(h: (T, T) -> T, s: seq<T>)
    requires |s| == 2
    ensures Root(h, s) == h(Root(h, s[..1]), Root(h, s[1..]))
  {
    assert Up(h, s) == [h(s[0], s[1])];
  }

  /** The two parts go up by themselves. */
  lemma {:induction false} UpSplits<T>(h: (T, T) -> T, s: seq<T>, half: nat)
    requires 2 * half < |s| <= 4 * half
    ensures half < |Up(h, s)| <= 2 * half
    ensures Up(h, s[..2 * half]) == Up(h, s)[..half] && Up(h, s[2 * half..]) == Up(h, s)[half..]
  {
    var p, up := 2 * half, Up(h, s);
    HalfBetween(|s|, half);
    assert Up(h, s[..p]) == up[..half] by {
      UpOfWindow(h, s, 0, p);
      assert s[0..p] == s[..p] && up[0..half] == up[..half];
    }
    assert Up(h, s[p..]) == up[half..] by {
      UpOfWindow(h, s, p, |s|);
      assert s[p..|s|] == s[p..] && up[half..|up|] == up[half..];
    }
  }

  lemma {:induction false} HalfBetween(n: nat, half: nat)
    requires 2 * half < n <= 4 * half
    ensures half < (n + 1) / 2 <= 2 * half
  {
  }

  lemma {:induction false} RootOfUp<T>(h: (T, T) -> T, s: seq<T>)
    requires s != []
    ensures Up(h, s) != [] && Root(h, Up(h, s)) == Root(h, s)
  {
    if |s| == 1 {
      assert Up(h, s) == s;
    }
  }

  /** Every leaf count but one has such a power of two. */
  lemma {:induction false} HasSplit(n: nat) returns (j: nat)
    requires n > 1
    ensures Pow2(j) < n <= 2 * Pow2(j)
  {
    j := 0;
    while 2 * Pow2(j) < n
      invariant Pow2(j) < n
      decreases n - Pow2(j)
    {
      j := j + 1;
    }
  }

  // --- Completeness ---

  /** A window of whole pairs goes up by itself. */
  lemma {:induction false} UpOfWindow<T>(h: (T, T) -> T, layer: seq<T>, lo: nat, hi: nat)
    requires lo % 2 == 0 && lo <= hi <= |layer| && (hi % 2 == 0 || hi == |layer|)
    ensures Up(h, layer[lo..hi]) == Up(h, layer)[lo / 2..(hi + 1) / 2]
  {
  }

  /** The widened window's parents are the parents' window. */
  lemma {:induction false} WideParents<T>(h: (T, T) -> T, layer: seq<T>, lo: nat, hi: nat)
    requires lo < hi <= |layer|
    ensures Up(h, layer[WideLo(lo)..WideHi(|layer|, hi)]) == Up(h, layer)[lo / 2..(hi + 1) / 2]
  {
    var a, b := WideLo(lo), WideHi(|layer|, hi);
    assert a / 2 == lo / 2 && (b + 1) / 2 == (hi + 1) / 2;
    UpOfWindow(h, layer, a, b);
  }

  lemma {:induction false} SlicesJoin<T>(s: seq<T>, a: nat, b: nat, c: nat)
    requires a <= b <= c <= |s|
    ensures s[a..b] + s[b..c] == s[a..c]
  {
    var t := s[a..b] + s[b..c];
    assert |t| == |s[a..c]|;
    forall k | 0 <= k < |t| ensures t[k] == s[a..c][k] {
      assert t[k] == s[a + k];
    }
  }

  /** A row's own hashes widen its window to the window of whole pairs. */
  lemma {:induction false} ProofWidens<T>(h: (T, T) -> T, layer: seq<T>, lo: nat, hi: nat, rest: seq<T>)
    requires lo < hi <= |layer|
    ensures var proof := RowHashes(layer, lo, hi) + rest;
            && Widen(|layer|, lo, hi, layer[lo..hi], proof) == layer[WideLo(lo)..WideHi(|layer|, hi)]
            && proof[Cost(|layer|, lo, hi)..] == rest
  {
    var a, b := WideLo(lo), WideHi(|layer|, hi);
    var left, right := layer[a..lo], layer[hi..b];
    var proof := RowHashes(layer, lo, hi) + rest;
    assert proof == left + right + rest;
    assert |left| == LeftCost(lo) && |left + right| == Cost(|layer|, lo, hi);
    assert proof[..|left|] == left;
    assert proof[|left|..|left + right|] == right;
    assert proof[|left + right|..] == rest;
    SlicesJoin(layer, a, lo, hi);
    SlicesJoin(layer, a, hi, b);
  }

  /** A proof begins with the missing siblings of the window in its own row, the left one first. */
  lemma {:induction false} ProofBegins<T>(h: (T, T) -> T, layer: seq<T>, lo: nat, hi: nat)
    requires lo < hi <= |layer| && |layer| > 1
    ensures var left := lo % 2 == 1;
            var right := hi % 2 == 1 && hi < |layer|;
            var rest := WindowProof(h, Up(h, layer), lo / 2, (hi + 1) / 2);
            WindowProof(h, layer, lo, hi)
            == (if left then [layer[lo - 1]] else []) + (if right then [layer[hi]] else []) + rest
  {
    if lo % 2 == 1 {
      assert layer[lo - 1..lo] == [layer[lo - 1]];
    }
    if hi % 2 == 1 && hi < |layer| {
      assert layer[hi..hi + 1] == [layer[hi]];
    }
  }

  /** The textbook check of one leaf: fold its proof from the leaf up, by the parity of its place. */
  function Fold<T>(h: (T, T) -> T, n: nat, i: nat, leaf: T, proof: seq<T>): Option<T>
    requires i < n
    decreases n
  {
    if n == 1 then Some(leaf)
    else if i % 2 == 0 && i + 1 == n then Fold(h, (n + 1) / 2, i / 2, leaf, proof)
    else if proof == [] then None
    else Fold(h, (n + 1) / 2, i / 2, if i % 2 == 0 then h(leaf, proof[0]) else h(proof[0], leaf), proof[1..])
  }

  /** The proof of one leaf passes the textbook check. */
  lemma {:induction false} OneLeafFolds<T>(h: (T, T) -> T, layer: seq<T>, i: nat)
    requires i < |layer|
    ensures Fold(h, |layer|, i, layer[i], WindowProof(h, layer, i, i + 1)) == Some(Root(h, layer))
    decreases |layer|, 1
  {
    if |layer| == 1 {
    } else {
      var rest := SingleProof(h, layer, i);
      FoldsUp(h, layer, i, Up(h, layer), i / 2, rest);
    }
  }

  /** One row of the fold, given the rows above. */
  lemma {:induction false} FoldsUp<T>(
    h: (T, T) -> T, layer: seq<T>, i: nat, up: seq<T>, k: nat, rest: seq<T>)
    requires i < |layer| && |layer| > 1 && up == Up(h, layer) && k == i / 2 < |up| == (|layer| + 1) / 2 < |layer|
    requires rest == WindowProof(h, up, k, k + 1) && StepsTo(layer, i, WindowProof(h, layer, i, i + 1), rest)
    ensures Fold(h, |layer|, i, layer[i], WindowProof(h, layer, i, i + 1)) == Some(Root(h, layer))
    decreases |layer|, 0
  {
    assert Fold(h, |layer|, i, layer[i], WindowProof(h, layer, i, i + 1)) == Fold(h, |up|, k, up[k], rest) by {
      ParentOf(h, layer, i);
      FoldStep(h, layer, i, up[k], WindowProof(h, layer, i, i + 1), rest);
    }
    assert Fold(h, |up|, k, up[k], rest) == Some(Root(h, up)) by {
      OneLeafFolds(h, up, k);
    }
    assert Root(h, up) == Root(h, layer) by {
      RootOfUp(h, layer);
    }
  }

  /** The proof of one leaf: its sibling, if it has one, and the proof of its parent. */
  lemma {:induction false} SingleProof<T>(h: (T, T) -> T, layer: seq<T>, i: nat) returns (rest: seq<T>)
    requires i < |layer| && |layer| > 1
    ensures i / 2 < |Up(h, layer)| == (|layer| + 1) / 2
    ensures rest == WindowProof(h, Up(h, layer), i / 2, i / 2 + 1)
    ensures StepsTo(layer, i, WindowProof(h, layer, i, i + 1), rest)
  {
    assert (i + 2) / 2 == i / 2 + 1;
    rest := WindowProof(h, Up(h, layer), i / 2, i / 2 + 1);
    ProofBegins(h, layer, i, i + 1);
    ProofOfOne(layer, i, rest, WindowProof(h, layer, i, i + 1));
  }

  ghost predicate StepsTo<T>(layer: seq<T>, i: nat, proof: seq<T>, rest: seq<T>)
    requires i < |layer|
  {
    if i % 2 == 0 && i + 1 == |layer| then proof == rest
    else proof != [] && proof[0] == layer[if i % 2 == 1 then i - 1 else i + 1] && proof[1..] == rest
  }

  lemma {:induction false} FoldStep<T>(
    h: (T, T) -> T, layer: seq<T>, i: nat, parent: T, proof: seq<T>, rest: seq<T>)
    requires i < |layer| && |layer| > 1 && StepsTo(layer, i, proof, rest)
    requires parent == if i % 2 == 1 then h(layer[i - 1], layer[i])
                       else if i + 1 < |layer| then h(layer[i], layer[i + 1])
                       else layer[i]
    ensures Fold(h, |layer|, i, layer[i], proof) == Fold(h, (|layer| + 1) / 2, i / 2, parent, rest)
  {
  }

  lemma {:induction false} ParentOf<T>(h: (T, T) -> T, layer: seq<T>, i: nat)
    requires i < |layer|
    ensures i / 2 < |Up(h, layer)|
    ensures Up(h, layer)[i / 2]
            == if i % 2 == 1 then h(layer[i - 1], layer[i])
               else if i + 1 < |layer| then h(layer[i], layer[i + 1])
               else layer[i]
  {
  }

  lemma {:induction false} ProofOfOne<T>(layer: seq<T>, i: nat, rest: seq<T>, proof: seq<T>)
    requires i < |layer|
    requires proof == (if i % 2 == 1 then [layer[i - 1]] else [])
                      + (if (i + 1) % 2 == 1 && i + 1 < |layer| then [layer[i + 1]] else []) + rest
    ensures StepsTo(layer, i, proof, rest)
  {
  }

  /**
    For every leaf count and every window, the chunk and its proof recompute the committed root;
    hashes after the proof are not looked at.
   */
  lemma {:induction false} ProofRecomputesRoot<T>(h: (T, T) -> T, layer: seq<T>, lo: nat, hi: nat, surplus: seq<T>)
    requires lo < hi <= |layer|
    ensures Recompute(h, |layer|, lo, hi, layer[lo..hi], WindowProof(h, layer, lo, hi) + surplus)
            == Some(Root(h, layer))
    decreases |layer|
  {
    if |layer| <= 1 {
    } else {
      WideCount(|layer|, lo, hi);
      var up, lo', hi' := Up(h, layer), lo / 2, (hi + 1) / 2;
      var rest := WindowProof(h, up, lo', hi') + surplus;
      var proof := RowHashes(layer, lo, hi) + rest;
      assert WindowProof(h, layer, lo, hi) + surplus == proof;
      assert && Up(h, Widen(|layer|, lo, hi, layer[lo..hi], proof)) == up[lo'..hi']
             && proof[Cost(|layer|, lo, hi)..] == rest by {
        ProofWidens(h, layer, lo, hi, rest);
        WideParents(h, layer, lo, hi);
      }
      ProofRecomputesRoot(h, up, lo', hi', surplus);
    }
  }

  // --- Size ---

  lemma {:induction false} ProofHasSize<T>(h: (T, T) -> T, layer: seq<T>, lo: nat, hi: nat)
    requires lo < hi <= |layer|
    ensures |WindowProof(h, layer, lo, hi)| == ProofSize(|layer|, lo, hi)
    decreases |layer|
  {
    if |layer| <= 1 {
    } else {
      ProofHasSize(h, Up(h, layer), lo / 2, (hi + 1) / 2);
    }
  }

  /** A row takes at most two hashes; it takes none and leaves a whole row above only if it is whole itself. */
  lemma {:induction false} RowCost(n: nat, lo: nat, hi: nat)
    requires lo < hi <= n && n > 1
    ensures Cost(n, lo, hi) <= 2
    ensures Cost(n, lo, hi) == 0 && lo / 2 == 0 && (hi + 1) / 2 == (n + 1) / 2 <==> lo == 0 && hi == n
  {
  }

  /** At most two hashes a row, and none at all exactly for the whole tree. */
  lemma {:induction false} ProofSizeBounds(n: nat, lo: nat, hi: nat)
    requires lo < hi <= n
    ensures ProofSize(n, lo, hi) <= 2 * Height(n)
    ensures ProofSize(n, lo, hi) == 0 <==> lo == 0 && hi == n
  {
    if n <= 1 {
    } else {
      WideCount(n, lo, hi);
      RowCost(n, lo, hi);
      ProofSizeBounds((n + 1) / 2, lo / 2, (hi + 1) / 2);
    }
  }

  lemma {:induction false} HeightIsLogarithmic(n: nat, k: nat)
    requires n <= Pow2(k)
    ensures Height(n) <= k
    decreases k
  {
    if n <= 1 {
    } else {
      HeightIsLogarithmic((n + 1) / 2, k - 1);
    }
  }

  // --- Binding ---

  /** Two different pairs with one hash. */
  datatype Collision<T> = Collision(a: T, b: T, c: T, d: T)

  predicate Collides<T(==)>(h: (T, T) -> T, x: Collision<T>) {
    (x.a, x.b) != (x.c, x.d) && h(x.a, x.b) == h(x.c, x.d)
  }

  /** Different layers of one length with one layer above give a collision. */
  lemma {:induction false} UpBinds<T>(h: (T, T) -> T, s: seq<T>, t: seq<T>) returns (x: Option<Collision<T>>)
    requires |s| == |t| && Up(h, s) == Up(h, t)
    ensures if x.Some? then Collides(h, x.value) else s == t
  {
    if s == t {
      return None;
    }
    var i :| 0 <= i < |s| && s[i] != t[i];
    var k := i / 2;
    assert Up(h, s)[k] == Up(h, t)[k];
    x := Some(Collision(s[2 * k], s[2 * k + 1], t[2 * k], t[2 * k + 1]));
  }

  lemma {:induction false} PrefixUnder<T>(a: seq<T>, b: seq<T>, c: seq<T>)
    requires b <= c
    ensures a + b <= a + c
  {
    assert a + c == a + b + c[|b|..];
  }

  lemma {:induction false} SliceOfSlice<T>(s: seq<T>, a: nat, b: nat, i: nat, j: nat)
    requires a <= b <= |s| && i <= j <= b - a
    ensures s[a..b][i..j] == s[a + i..a + j]
  {
    assert forall k | 0 <= k < j - i :: s[a..b][i..j][k] == s[a..b][i + k] == s[a + (i + k)];
  }

  /** Hashes that widen a chunk to the window of whole pairs of `layer` are that row's own. */
  lemma {:induction false} WideIsWindow<T>(layer: seq<T>, lo: nat, hi: nat, chunk: seq<T>, proof: seq<T>)
    requires lo < hi <= |layer| && |chunk| == hi - lo && |proof| >= Cost(|layer|, lo, hi)
    requires Widen(|layer|, lo, hi, chunk, proof) == layer[WideLo(lo)..WideHi(|layer|, hi)]
    ensures chunk == layer[lo..hi]
    ensures proof == RowHashes(layer, lo, hi) + proof[Cost(|layer|, lo, hi)..]
  {
    var a, b := WideLo(lo), WideHi(|layer|, hi);
    var left, mid, cost := LeftCost(lo), LeftCost(lo) + |chunk|, Cost(|layer|, lo, hi);
    var wide := Widen(|layer|, lo, hi, chunk, proof);
    assert proof[..left] == wide[..left] && chunk == wide[left..mid] && proof[left..cost] == wide[mid..];
    SliceOfSlice(layer, a, b, 0, left);
    SliceOfSlice(layer, a, b, left, mid);
    SliceOfSlice(layer, a, b, mid, b - a);
    assert proof == proof[..left] + proof[left..cost] + proof[cost..];
  }

  /** One row of the binding argument: if the parents and the rest of the proof are right, so is this row. */
  lemma {:induction false} RowBinds<T>(
    h: (T, T) -> T, layer: seq<T>, lo: nat, hi: nat, chunk: seq<T>, proof: seq<T>, above: seq<T>)
    returns (x: Option<Collision<T>>)
    requires lo < hi <= |layer| && |chunk| == hi - lo && |proof| >= Cost(|layer|, lo, hi)
    requires Up(h, Widen(|layer|, lo, hi, chunk, proof)) == Up(h, layer[WideLo(lo)..WideHi(|layer|, hi)])
    requires above <= proof[Cost(|layer|, lo, hi)..]
    ensures if x.Some? then Collides(h, x.value)
            else chunk == layer[lo..hi] && RowHashes(layer, lo, hi) + above <= proof
  {
    x := UpBinds(h, Widen(|layer|, lo, hi, chunk, proof), layer[WideLo(lo)..WideHi(|layer|, hi)]);
    if x.None? {
      WideIsWindow(layer, lo, hi, chunk, proof);
      PrefixUnder(RowHashes(layer, lo, hi), above, proof[Cost(|layer|, lo, hi)..]);
    }
  }

  /**
    The root binds the leaves: whatever chunk and hashes recompute the root of `layer` at a window of
    it, either the chunk is that window of `layer` and the hashes start with its proof, or the
    mismatch exhibits a collision of `h`.
   */
  lemma {:induction false} RootBindsWindow<T>(
    h: (T, T) -> T, layer: seq<T>, lo: nat, hi: nat, chunk: seq<T>, proof: seq<T>)
    returns (x: Option<Collision<T>>)
    requires lo < hi <= |layer| && |chunk| == hi - lo
    requires Recompute(h, |layer|, lo, hi, chunk, proof) == Some(Root(h, layer))
    ensures if x.Some? then Collides(h, x.value)
            else chunk == layer[lo..hi] && WindowProof(h, layer, lo, hi) <= proof
    decreases |layer|
  {
    if |layer| == 1 {
      x := None;
    } else {
      var wide := Widen(|layer|, lo, hi, chunk, proof);
      var up, lo', hi', rest := Up(h, layer), lo / 2, (hi + 1) / 2, proof[Cost(|layer|, lo, hi)..];
      WideCount(|layer|, lo, hi);
      x := RootBindsWindow(h, up, lo', hi', Up(h, wide), rest);
      if x.None? {
        WideParents(h, layer, lo, hi);
        x := RowBinds(h, layer, lo, hi, chunk, proof, WindowProof(h, up, lo', hi'));
      }
    }
  }
}
