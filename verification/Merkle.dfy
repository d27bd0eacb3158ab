/** Merkle roots computed level by level in place (core/merkle/merkle.go). The hash is an
    arbitrary function H. */
module Merkle {
  import opened Records

  // ---- the tree, top down ----

  ghost predicate PowerOfTwo(k: nat) {
    k == 1 || (k > 1 && k % 2 == 0 && PowerOfTwo(k / 2))
  }

  /** Doubles k until it is the largest power of two below n. */
  function Doubled(n: nat, k: nat): (r: nat)
    requires 1 <= k < n && PowerOfTwo(k)
    ensures PowerOfTwo(r) && r < n <= 2 * r
    decreases n - k
  {
    if n <= 2 * k then k else Doubled(n, 2 * k)
  }

  /** The largest power of two below n: the left subtree of n leaves has that many. */
  function SplitPoint(n: nat): (r: nat)
    requires n >= 2
    ensures PowerOfTwo(r) && r < n <= 2 * r
  {
    Doubled(n, 1)
  }

  /** The root as section 2.1 of RFC 6962 splits it, without its prefix bytes. */
  function Root(H: Bytes -> Bytes, xs: seq<Bytes>): Bytes
    requires |xs| > 0
    decreases |xs|
  {
    if |xs| == 1 then xs[0]
    else
      var k := SplitPoint(|xs|);
      H(Root(H, xs[..k]) + Root(H, xs[k..]))
  }

  /** Two nodes are hashed left to right, and a node without a partner goes up as it is. */
  lemma {:induction false} SmallRoots(H: Bytes -> Bytes, a: Bytes, b: Bytes, c: Bytes)
    ensures Root(H, [a]) == a && Root(H, [a, b]) == H(a + b) && Root(H, [a, b, c]) == H(H(a + b) + c)
  {
    assert [a, b][..1] == [a] && [a, b][1..] == [b];
    assert [a, b, c][..2] == [a, b] && [a, b, c][2..] == [c];
  }

  // ---- one level, bottom up ----

  function Pair(H: Bytes -> Bytes, xs: seq<Bytes>, k: nat): Bytes
    requires 2 * k < |xs|
  {
    if 2 * k + 1 < |xs| then H(xs[2 * k] + xs[2 * k + 1]) else xs[2 * k]
  }

  function Level(H: Bytes -> Bytes, xs: seq<Bytes>): (r: seq<Bytes>)
    ensures |r| == (|xs| + 1) / 2
    ensures forall k | 0 <= k < |r| :: r[k] == Pair(H, xs, k)
  {
    seq((|xs| + 1) / 2, k requires 0 <= k < (|xs| + 1) / 2 => Pair(H, xs, k))
  }

  lemma {:induction false} PowersAreApart(j: nat, k: nat, n: nat)
    requires PowerOfTwo(j) && PowerOfTwo(k) && j < n <= 2 * j && k < n <= 2 * k
    ensures j == k
    decreases n
  {
    if j > 1 && k > 1 { PowersAreApart(j / 2, k / 2, (n + 1) / 2); }
  }

  /** Halving the leaves halves the split point. */
  lemma {:induction false} SplitHalves(n: nat)
    requires n > 2
    ensures SplitPoint(n) == 2 * SplitPoint((n + 1) / 2)
  {
    hide SplitPoint, PowerOfTwo;
    var k := SplitPoint((n + 1) / 2);
    DoubledPower(k);
    PowersAreApart(SplitPoint(n), 2 * k, n);
  }

  lemma {:induction false} DoubledPower(k: nat)
    requires PowerOfTwo(k)
    ensures PowerOfTwo(2 * k)
  {
    assert 2 * k / 2 == k;
  }

  /** A level keeps the root. */
  lemma {:induction false} LevelKeepsRoot(H: Bytes -> Bytes, xs: seq<Bytes>)
    requires |xs| > 0
    ensures Root(H, Level(H, xs)) == Root(H, xs)
    decreases |xs|
  {
    hide PowerOfTwo, SplitPoint, Level, Pair, Root;
    var n := |xs|;
    if n <= 2 {
      SmallLevel(H, xs);
    } else {
      SplitHalves(n);
      var k := SplitPoint((n + 1) / 2);
      LevelSplits(H, xs, k);
      RootSplits(H, xs);
      RootSplits(H, Level(H, xs));
      LevelKeepsRoot(H, xs[..2 * k]);
      LevelKeepsRoot(H, xs[2 * k..]);
    }
  }

  lemma {:induction false} RootSplits(H: Bytes -> Bytes, xs: seq<Bytes>)
    requires |xs| >= 2
    ensures var k := SplitPoint(|xs|); Root(H, xs) == H(Root(H, xs[..k]) + Root(H, xs[k..]))
  {
    hide SplitPoint;
  }

  lemma {:induction false} SmallLevel(H: Bytes -> Bytes, xs: seq<Bytes>)
    requires 0 < |xs| <= 2
    ensures Root(H, Level(H, xs)) == Root(H, xs)
  {
    if |xs| == 2 { assert xs[..1] == [xs[0]] && xs[1..] == [xs[1]]; }
  }

  lemma {:induction false} LevelSplits(H: Bytes -> Bytes, xs: seq<Bytes>, k: nat)
    requires 2 * k <= |xs|
    ensures Level(H, xs)[..k] == Level(H, xs[..2 * k]) && Level(H, xs)[k..] == Level(H, xs[2 * k..])
  {
  }

  /** Overwrites the first n nodes with the level above them. */
  method OneLevel(H: Bytes -> Bytes, nodes: array<Bytes>, n: nat) returns (to: nat)
    requires 1 < n <= nodes.Length
    modifies nodes
    ensures 0 < to < n && nodes[..to] == Level(H, old(nodes[..n]))
  {
    ghost var xs := nodes[..n];
    var i := 0;
    to := 0;
    while i < n
      invariant i == 2 * to && 0 <= to <= (n + 1) / 2
      invariant forall k | 0 <= k < to :: nodes[k] == Pair(H, xs, k)
      invariant forall k | i <= k < n :: nodes[k] == xs[k]
    {
      var node := nodes[i];
      if i + 1 < n { node := H(nodes[i] + nodes[i + 1]); }
      nodes[to] := node;
      i, to := i + 2, to + 1;
    }
    assert nodes[..to] == Level(H, xs);
  }

  /** Overwrites the leaves level by level; the last one left is the root. */
  method ComputeRoot(H: Bytes -> Bytes, leafs: array<Bytes>) returns (root: Option<Bytes>)
    modifies leafs
    ensures root.None? <==> leafs.Length == 0
    ensures root.Some? ==> root.value == Root(H, old(leafs[..]))
  {
    hide Level;
    if leafs.Length == 0 { return None; }
    if leafs.Length == 1 { return Some(leafs[0]); }
    var n := leafs.Length;
    assert leafs[..n] == leafs[..];
    while n != 1
      invariant 0 < n <= leafs.Length && Root(H, leafs[..n]) == Root(H, old(leafs[..]))
    {
      LevelKeepsRoot(H, leafs[..n]);
      n := OneLevel(H, leafs, n);
    }
    return Some(leafs[0]);
  }

  // ---- equal roots ----

  ghost predicate Hashes(H: Bytes -> Bytes, xs: seq<Bytes>) {
    && (forall b: Bytes :: |H(b)| == HASH_LENGTH)
    && (forall k | 0 <= k < |xs| :: |xs[k]| == HASH_LENGTH)
  }

  lemma {:induction false} RootLength(H: Bytes -> Bytes, xs: seq<Bytes>)
    requires Hashes(H, xs) && |xs| > 0
    ensures |Root(H, xs)| == HASH_LENGTH
  {
  }

  lemma {:induction false} OneLeaf(H: Bytes -> Bytes, xs: seq<Bytes>, ys: seq<Bytes>)
    requires |xs| == |ys| > 0 && Root(H, xs) == Root(H, ys)
    ensures |xs| > 1 || xs == ys
  {
  }

  lemma {:induction false} SameParts(a: Bytes, b: Bytes, c: Bytes, d: Bytes)
    requires |a| == |c| && a + b == c + d
    ensures a == c && b == d
  {
    assert a == (a + b)[..|a|] && b == (a + b)[|a|..];
    assert c == (c + d)[..|c|] && d == (c + d)[|c|..];
  }

  lemma {:induction false} PartsDiffer(xs: seq<Bytes>, ys: seq<Bytes>, k: nat)
    requires |xs| == |ys| && k <= |xs| && xs != ys
    ensures xs[..k] != ys[..k] || xs[k..] != ys[k..]
  {
    assert xs == xs[..k] + xs[k..] && ys == ys[..k] + ys[k..];
  }

  /** Two different lists of equally many hashes with the same root give away two different
      byte strings with the same hash. */
  lemma {:induction false} EqualRootsCollide(H: Bytes -> Bytes, xs: seq<Bytes>, ys: seq<Bytes>)
    returns (a: Bytes, b: Bytes)
    requires Hashes(H, xs) && Hashes(H, ys) && |xs| == |ys| > 0 && xs != ys && Root(H, xs) == Root(H, ys)
    ensures a != b && H(a) == H(b)
    decreases |xs|
  {
    OneLeaf(H, xs, ys);
    RootSplits(H, xs);
    RootSplits(H, ys);
    hide Root, SplitPoint, PowerOfTwo;
    var k := SplitPoint(|xs|);
    var l, r, m, s := Root(H, xs[..k]), Root(H, xs[k..]), Root(H, ys[..k]), Root(H, ys[k..]);
    if l + r != m + s {
      a, b := l + r, m + s;
    } else {
      RootLength(H, xs[..k]);
      RootLength(H, ys[..k]);
      SameParts(l, r, m, s);
      PartsDiffer(xs, ys, k);
      if xs[..k] != ys[..k] {
        a, b := EqualRootsCollide(H, xs[..k], ys[..k]);
      } else {
        a, b := EqualRootsCollide(H, xs[k..], ys[k..]);
      }
    }
  }

  // ---- sorted leaves ----

  /** The byte-wise order, a proper prefix first. */
  predicate LessEq(a: Bytes, b: Bytes) {
    a == [] || (b != [] && (a[0] < b[0] || (a[0] == b[0] && LessEq(a[1..], b[1..]))))
  }

  /** The first byte in which two strings differ decides, and a string comes before its extensions. */
  lemma {:induction false} OrderExactly(a: Bytes, b: Bytes)
    ensures LessEq(a, b) <==>
      a <= b || exists k | 0 <= k < |a| && k < |b| :: a[..k] == b[..k] && a[k] < b[k]
  {
    if a != [] && b != [] {
      OrderExactly(a[1..], b[1..]);
      if a[0] == b[0] { SameFirst(a, b); }
      if a[0] < b[0] { assert a[..0] == b[..0]; }
      forall k | 0 < k < |a| && k < |b| && a[..k] == b[..k] ensures a[0] == b[0] {
        assert a[..k][0] == a[0] && b[..k][0] == b[0];
      }
    }
  }

  lemma {:induction false} SameFirst(a: Bytes, b: Bytes)
    requires a != [] && b != [] && a[0] == b[0]
    ensures a <= b <==> a[1..] <= b[1..]
    ensures (exists k | 0 <= k < |a| && k < |b| :: a[..k] == b[..k] && a[k] < b[k]) <==>
      exists k | 0 <= k < |a| - 1 && k < |b| - 1 :: a[1..][..k] == b[1..][..k] && a[1..][k] < b[1..][k]
  {
    assert a == [a[0]] + a[1..] && b == [b[0]] + b[1..];
    forall k | 0 < k < |a| && k < |b| ensures a[..k] == b[..k] <==> a[1..][..k - 1] == b[1..][..k - 1] {
      assert a[..k] == [a[0]] + a[1..][..k - 1] && b[..k] == [b[0]] + b[1..][..k - 1];
    }
    if k :| 0 <= k < |a| && k < |b| && a[..k] == b[..k] && a[k] < b[k] {
      assert k > 0 && a[1..][..k - 1] == b[1..][..k - 1] && a[1..][k - 1] < b[1..][k - 1];
    }
    if k :| 0 <= k < |a| - 1 && k < |b| - 1 && a[1..][..k] == b[1..][..k] && a[1..][k] < b[1..][k] {
      assert a[..k + 1] == b[..k + 1] && a[k + 1] < b[k + 1];
    }
  }

  lemma {:induction false} OrderIsTotal(a: Bytes, b: Bytes)
    ensures LessEq(a, b) || LessEq(b, a)
    ensures LessEq(a, b) && LessEq(b, a) ==> a == b
  {
    if a != [] && b != [] {
      OrderIsTotal(a[1..], b[1..]);
      assert a == [a[0]] + a[1..] && b == [b[0]] + b[1..];
    }
  }

  lemma {:induction false} OrderIsTransitive(a: Bytes, b: Bytes, c: Bytes)
    requires LessEq(a, b) && LessEq(b, c)
    ensures LessEq(a, c)
  {
    if a != [] && a[0] == b[0] == c[0] { OrderIsTransitive(a[1..], b[1..], c[1..]); }
  }

  ghost predicate Ordered(xs: seq<Bytes>) {
    forall i, j | 0 <= i < j < |xs| :: LessEq(xs[i], xs[j])
  }

  function Insert(x: Bytes, xs: seq<Bytes>): seq<Bytes> {
    if xs == [] || LessEq(x, xs[0]) then [x] + xs else [xs[0]] + Insert(x, xs[1..])
  }

  /** The leaves in increasing order. */
  function Sorted(xs: seq<Bytes>): seq<Bytes> {
    if xs == [] then [] else Insert(xs[0], Sorted(xs[1..]))
  }

  lemma {:induction false} InsertOrdered(x: Bytes, xs: seq<Bytes>)
    requires Ordered(xs)
    ensures Ordered(Insert(x, xs)) && multiset(Insert(x, xs)) == multiset(xs) + multiset{x}
  {
    hide LessEq;
    if xs == [] || LessEq(x, xs[0]) {
      forall i | 0 <= i < |xs| ensures LessEq(x, xs[i]) {
        if i > 0 { OrderIsTransitive(x, xs[0], xs[i]); }
      }
    } else {
      OrderIsTotal(x, xs[0]);
      FirstAndRest(xs);
      InsertOrdered(x, xs[1..]);
      Prepend(xs[0], Insert(x, xs[1..]), xs[1..], x);
    }
  }

  lemma {:induction false} Prepend(a: Bytes, more: seq<Bytes>, xs: seq<Bytes>, x: Bytes)
    requires Ordered([a] + xs) && Ordered(more) && multiset(more) == multiset(xs) + multiset{x} && LessEq(a, x)
    ensures Ordered([a] + more)
  {
    hide LessEq;
    forall i | 0 <= i < |more| ensures LessEq(a, more[i]) {
      assert more[i] in multiset(more);
      if more[i] != x {
        assert more[i] in multiset(xs);
        var j :| 0 <= j < |xs| && xs[j] == more[i];
        assert ([a] + xs)[0] == a && ([a] + xs)[j + 1] == more[i];
      }
    }
  }

  lemma {:induction false} SortedIsSorted(xs: seq<Bytes>)
    ensures Ordered(Sorted(xs)) && multiset(Sorted(xs)) == multiset(xs) && |Sorted(xs)| == |xs|
  {
    if xs != [] {
      SortedIsSorted(xs[1..]);
      InsertOrdered(xs[0], Sorted(xs[1..]));
      assert xs == [xs[0]] + xs[1..];
    }
    assert |multiset(Sorted(xs))| == |multiset(xs)|;
  }

  /** There is one ordered arrangement of a multiset of leaves. */
  lemma {:induction false} OneOrder(xs: seq<Bytes>, ys: seq<Bytes>)
    requires Ordered(xs) && Ordered(ys) && multiset(xs) == multiset(ys)
    ensures xs == ys
  {
    hide LessEq, Ordered;
    assert |xs| == |multiset(xs)| == |multiset(ys)| == |ys|;
    if xs != [] {
      FirstIsLeast(xs, ys);
      FirstIsLeast(ys, xs);
      OrderIsTotal(xs[0], ys[0]);
      FirstAndRest(xs);
      FirstAndRest(ys);
      OneOrder(xs[1..], ys[1..]);
    }
  }

  lemma {:induction false} FirstAndRest(xs: seq<Bytes>)
    requires |xs| > 0
    ensures xs == [xs[0]] + xs[1..] && multiset(xs[1..]) == multiset(xs) - multiset{xs[0]}
    ensures Ordered(xs) ==> Ordered(xs[1..])
  {
    assert xs == [xs[0]] + xs[1..];
  }

  lemma {:induction false} FirstIsLeast(xs: seq<Bytes>, ys: seq<Bytes>)
    requires Ordered(xs) && multiset(xs) == multiset(ys) && |xs| == |ys| > 0
    ensures LessEq(xs[0], ys[0])
  {
    assert ys[0] in multiset(ys);
    var i :| 0 <= i < |xs| && xs[i] == ys[0];
    if i == 0 { OrderIsTotal(xs[0], xs[0]); }
  }

  /** The root of the sorted leaves depends on the multiset of leaves only. */
  lemma {:induction false} SortedRootIgnoresOrder(H: Bytes -> Bytes, xs: seq<Bytes>, ys: seq<Bytes>)
    requires |xs| > 0 && multiset(xs) == multiset(ys)
    ensures |Sorted(xs)| > 0 && Sorted(xs) == Sorted(ys) && Root(H, Sorted(xs)) == Root(H, Sorted(ys))
  {
    SortedIsSorted(xs);
    SortedIsSorted(ys);
    OneOrder(Sorted(xs), Sorted(ys));
  }

  /** Puts the leaves in order in place and computes their root. */
  method SortAndComputeRoot(H: Bytes -> Bytes, leafs: array<Bytes>) returns (root: Option<Bytes>)
    modifies leafs
    ensures root.None? <==> leafs.Length == 0
    ensures |Sorted(old(leafs[..]))| == leafs.Length
    ensures root.Some? ==> root.value == Root(H, Sorted(old(leafs[..])))
  {
    var sorted := Sorted(leafs[..]);
    SortedIsSorted(leafs[..]);
    for i := 0 to leafs.Length
      invariant leafs[..i] == sorted[..i]
    {
      leafs[i] := sorted[i];
    }
    assert leafs[..] == sorted;
    root := ComputeRoot(H, leafs);
  }
}
