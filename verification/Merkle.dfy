/** The bottom-up Merkle root loop against the top-down tree of section 2.1 of
    RFC 6962 (its shape, without that document's leaf and node prefix bytes). */
module Merkle {
  import opened ByteStrings

  function Pow2(e: nat): (p: nat)
    ensures p > 0
  {
    if e == 0 then 1 else 2 * Pow2(e - 1)
  }

  function CeilLog2(n: nat): nat
  {
    if n <= 1 then 0 else 1 + CeilLog2((n + 1) / 2)
  }

  lemma {:induction false} CeilLog2Bounds(n: nat)
    requires n >= 1
    ensures n <= Pow2(CeilLog2(n))
    ensures n > 1 ==> Pow2(CeilLog2(n) - 1) < n
  {
    if n > 1 {
      CeilLog2Bounds((n + 1) / 2);
    }
  }

  /** The largest power of two below n. */
  function SplitPoint(n: nat): (k: nat)
    requires n >= 2
    ensures 0 < k < n <= 2 * k
  {
    if n == 2 then 1 else 2 * SplitPoint((n + 1) / 2)
  }

  lemma {:induction false} SplitPointIsLargestPower(n: nat, e: nat)
    requires n >= 2
    ensures Pow2(e) == SplitPoint(n) <==> Pow2(e) < n <= 2 * Pow2(e)
  {
    if n > 2 && e > 0 {
      SplitPointIsLargestPower((n + 1) / 2, e - 1);
    }
  }

  /** One pass of the loop: neighbours are hashed in pairs, an odd last one is kept. */
  function Level(sha: Sha256, xs: seq<Bytes>): (ys: seq<Bytes>)
    ensures |ys| == (|xs| + 1) / 2
  {
    if |xs| < 2 then xs else [sha(xs[0] + xs[1])] + Level(sha, xs[2..])
  }

  /** The recursive tree: split at the largest power of two below the leaf count. */
  function TreeHash(sha: Sha256, xs: seq<Bytes>): Bytes
    requires xs != []
    decreases |xs|
  {
    if |xs| == 1 then xs[0]
    else
      var k := SplitPoint(|xs|);
      sha(TreeHash(sha, xs[..k]) + TreeHash(sha, xs[k..]))
  }

  lemma {:induction false} LevelSnoc(sha: Sha256, xs: seq<Bytes>, tail: seq<Bytes>)
    requires |xs| % 2 == 0
    ensures Level(sha, xs + tail) == Level(sha, xs) + Level(sha, tail)
    decreases |xs|
  {
    hide Level;
    if xs == [] {
      LevelShort(sha, xs);
      assert xs + tail == tail;
    } else {
      var all, rest := xs + tail, xs[2..];
      LevelSnoc(sha, rest, tail);
      LevelStep(sha, all);
      LevelStep(sha, xs);
      assert all[2..] == rest + tail && all[0] == xs[0] && all[1] == xs[1];
      assert Level(sha, all) == [sha(xs[0] + xs[1])] + (Level(sha, rest) + Level(sha, tail));
    }
  }

  lemma LevelSplits(sha: Sha256, xs: seq<Bytes>, k: nat)
    requires k <= |xs| && k % 2 == 0
    ensures Level(sha, xs)[..k / 2] == Level(sha, xs[..k])
    ensures Level(sha, xs)[k / 2..] == Level(sha, xs[k..])
  {
    hide Level;
    LevelSnoc(sha, xs[..k], xs[k..]);
    assert xs[..k] + xs[k..] == xs;
  }

  lemma HalfSplitPoint(n: nat)
    requires n > 2
    ensures SplitPoint(n) % 2 == 0 && SplitPoint(n) / 2 == SplitPoint((n + 1) / 2)
  {
  }

  /** A pass of the loop does not change the root of the tree. */
  lemma {:induction false} LevelKeepsTree(sha: Sha256, xs: seq<Bytes>)
    requires xs != []
    ensures TreeHash(sha, Level(sha, xs)) == TreeHash(sha, xs)
    decreases |xs|
  {
    if |xs| > 2 {
      var k := SplitPoint(|xs|);
      HalfSplitPoint(|xs|);
      var ys, l, r := Level(sha, xs), xs[..k], xs[k..];
      LevelSplits(sha, xs, k);
      LevelKeepsTree(sha, l);
      LevelKeepsTree(sha, r);
      assert ys[..k / 2] == Level(sha, l) && ys[k / 2..] == Level(sha, r);
      assert TreeHash(sha, ys) == sha(TreeHash(sha, ys[..k / 2]) + TreeHash(sha, ys[k / 2..]));
    } else if |xs| == 2 {
      assert Level(sha, xs[2..]) == [];
      assert TreeHash(sha, xs[..1]) == xs[0] && TreeHash(sha, xs[1..]) == xs[1];
    }
  }

  /** The inner loop of one round. */
  method HashLevel(sha: Sha256, current: seq<Bytes>) returns (next: seq<Bytes>, ghost hashCalls: nat)
    ensures next == Level(sha, current)
    ensures hashCalls == |current| / 2
  {
    hide Level;
    next, hashCalls := [], 0;
    var i := 0;
    ghost var rest := current;
    while i < |current|
      invariant i <= |current| ==> rest == current[i..]
      invariant i > |current| ==> i == |current| + 1 && rest == []
      invariant next + Level(sha, rest) == Level(sha, current)
      invariant hashCalls + |rest| / 2 == |current| / 2
    {
      if i + 1 >= |current| {
        next := next + [current[i]];
        assert rest == [current[i]];
        LevelShort(sha, rest);
        LevelShort(sha, []);
        rest := [];
      } else {
        var sum := sha(current[i] + current[i + 1]);
        LevelStep(sha, rest);
        next := next + [sum];
        hashCalls := hashCalls + 1;
        rest := rest[2..];
      }
      i := i + 2;
    }
    LevelShort(sha, []);
  }

  lemma LevelShort(sha: Sha256, xs: seq<Bytes>)
    requires |xs| < 2
    ensures Level(sha, xs) == xs
  {
  }

  lemma LevelStep(sha: Sha256, xs: seq<Bytes>)
    requires |xs| >= 2
    ensures Level(sha, xs) == [sha(xs[0] + xs[1])] + Level(sha, xs[2..])
  {
  }

  /** The loop computes the root of the recursive tree, in ceil(log2 n) rounds and
      with exactly n - 1 hash calls; the empty input gives the genesis sentinel. */
  method MerkleRoot(sha: Sha256, hashes: seq<Bytes>) returns (root: Bytes, ghost rounds: nat, ghost hashCalls: nat)
    ensures hashes == [] ==> root == ZERO_HASH
    ensures hashes != [] ==> root == TreeHash(sha, hashes)
    ensures hashes != [] ==> hashCalls == |hashes| - 1
    ensures hashes != [] ==> |hashes| <= Pow2(rounds) && (rounds > 0 ==> Pow2(rounds - 1) < |hashes|)
  {
    rounds, hashCalls := 0, 0;
    if |hashes| == 0 {
      return ZERO_HASH, 0, 0;
    }
    if |hashes| == 1 {
      return hashes[0], 0, 0;
    }
    CeilLog2Bounds(|hashes|);
    var current := hashes;
    while |current| > 1
      invariant current != [] && TreeHash(sha, current) == TreeHash(sha, hashes)
      invariant hashCalls + |current| == |hashes|
      invariant rounds + CeilLog2(|current|) == CeilLog2(|hashes|)
      decreases |current|
    {
      LevelKeepsTree(sha, current);
      ghost var calls;
      current, calls := HashLevel(sha, current);
      rounds, hashCalls := rounds + 1, hashCalls + calls;
    }
    root := current[0];
  }

  /** Everything the tree over these leaves hashes. */
  ghost function NodeInputs(sha: Sha256, xs: seq<Bytes>): set<Bytes>
    requires xs != []
    decreases |xs|
  {
    if |xs| == 1 then {}
    else
      var k := SplitPoint(|xs|);
      {TreeHash(sha, xs[..k]) + TreeHash(sha, xs[k..])} + NodeInputs(sha, xs[..k]) + NodeInputs(sha, xs[k..])
  }

  ghost predicate NoCollisionsIn(sha: Sha256, inputs: set<Bytes>)
  {
    forall x, y :: x in inputs && y in inputs && sha(x) == sha(y) ==> x == y
  }

  lemma {:induction false} TreeHashIsDigest(sha: Sha256, xs: seq<Bytes>)
    requires xs != [] && AllDigests(xs)
    ensures |TreeHash(sha, xs)| == 32
  {
  }

  lemma TreeSplit(sha: Sha256, xs: seq<Bytes>)
    requires |xs| > 1
    ensures var k := SplitPoint(|xs|);
            var node := TreeHash(sha, xs[..k]) + TreeHash(sha, xs[k..]);
            && TreeHash(sha, xs) == sha(node)
            && NodeInputs(sha, xs) == {node} + NodeInputs(sha, xs[..k]) + NodeInputs(sha, xs[k..])
  {
  }

  lemma SamePrefix(p: Bytes, x: Bytes, q: Bytes, y: Bytes)
    requires |p| == |q| && p + x == q + y
    ensures p == q && x == y
  {
    assert p == (p + x)[..|p|] && q == (q + y)[..|q|];
    assert x == (p + x)[|p|..] && y == (q + y)[|q|..];
  }

  ghost predicate AllDigests(xs: seq<Bytes>)
  {
    forall i :: 0 <= i < |xs| ==> |xs[i]| == 32
  }

  lemma NoCollisionsWithin(sha: Sha256, all: set<Bytes>, part: set<Bytes>)
    requires NoCollisionsIn(sha, all) && part <= all
    ensures NoCollisionsIn(sha, part)
  {
  }

  lemma NoCollision(sha: Sha256, all: set<Bytes>, x: Bytes, y: Bytes)
    requires NoCollisionsIn(sha, all) && x in all && y in all && sha(x) == sha(y)
    ensures x == y
  {
  }

  /** For a given number of leaves the root determines every leaf. */
  lemma {:induction false} RootBindsLeaves(sha: Sha256, a: seq<Bytes>, b: seq<Bytes>)
    requires a != [] && |a| == |b| && AllDigests(a) && AllDigests(b)
    requires NoCollisionsIn(sha, NodeInputs(sha, a) + NodeInputs(sha, b))
    ensures TreeHash(sha, a) == TreeHash(sha, b) <==> a == b
    decreases |a|
  {
    if |a| == 1 {
      assert a == [a[0]] && b == [b[0]];
    } else if TreeHash(sha, a) == TreeHash(sha, b) {
      var k, all := SplitPoint(|a|), NodeInputs(sha, a) + NodeInputs(sha, b);
      var al, ar, bl, br := a[..k], a[k..], b[..k], b[k..];
      TreeSplit(sha, a);
      TreeSplit(sha, b);
      hide TreeHash, NodeInputs, SplitPoint, NoCollisionsIn;
      TreeHashIsDigest(sha, al);
      TreeHashIsDigest(sha, bl);
      NoCollision(sha, all, TreeHash(sha, al) + TreeHash(sha, ar), TreeHash(sha, bl) + TreeHash(sha, br));
      SamePrefix(TreeHash(sha, al), TreeHash(sha, ar), TreeHash(sha, bl), TreeHash(sha, br));
      NoCollisionsWithin(sha, all, NodeInputs(sha, al) + NodeInputs(sha, bl));
      NoCollisionsWithin(sha, all, NodeInputs(sha, ar) + NodeInputs(sha, br));
      RootBindsLeaves(sha, al, bl);
      RootBindsLeaves(sha, ar, br);
      assert a == al + ar && b == bl + br;
    }
  }
}
