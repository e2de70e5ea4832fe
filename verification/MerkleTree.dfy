/** The Merkle tree of kyk_mkl_tree.c. Node bodies are digests stored byte-reversed; the
    functions here work on the digests as the hash gives them. */
module MerkleTree {
  import opened Bytes

  const MKL_NODE_BODY_LEN: nat := 32

  /** The 64 bytes hashed for a node. */
  function Pair(lft: Digest, rgt: Digest): (s: seq<byte>)
    ensures |s| == 64 && s[..32] == lft && s[32..] == rgt
  {
    var l: seq<byte> := lft;
    l + rgt
  }

  // ---------- bottom-up ----------

  /** The level above xs: neighbours are hashed together, an odd last one with itself. */
  function Up(hash256: Hasher, xs: seq<Digest>): (ys: seq<Digest>)
    ensures |ys| == (|xs| + 1) / 2
  {
    seq((|xs| + 1) / 2, i requires 0 <= i < (|xs| + 1) / 2 =>
      hash256(Pair(xs[2 * i], if 2 * i + 1 < |xs| then xs[2 * i + 1] else xs[2 * i])))
  }

  /** The digests k levels above the leaves. */
  function UpTimes(hash256: Hasher, raw: seq<Digest>, k: nat): seq<Digest> {
    if k == 0 then raw else Up(hash256, UpTimes(hash256, raw, k - 1))
  }

  /** The only node left after going up level by level. */
  function Root(hash256: Hasher, xs: seq<Digest>): Digest
    requires |xs| >= 1
    decreases |xs|
  {
    if |xs| == 1 then xs[0] else Root(hash256, Up(hash256, xs))
  }

  /** Levels between n leaves and the root. */
  function Height(n: nat): nat
    requires n >= 1
  {
    if n == 1 then 0 else 1 + Height((n + 1) / 2)
  }

  /** Height is the logarithm of n to base 2, rounded up. */
  lemma {:induction false} HeightIsCeilLog2(n: nat)
    requires n >= 1
    ensures n <= Pow2(Height(n))
    ensures n > 1 ==> Pow2(Height(n) - 1) < n
  {
    if n > 1 {
      HeightIsCeilLog2((n + 1) / 2);
    }
  }

  // ---------- top-down ----------

  /** The definition from the top: split at the largest power of two below the number of
      leaves, and hash a lone half with itself. `h` is the height of the subtree. */
  function TopDown(hash256: Hasher, xs: seq<Digest>, h: nat): Digest
    requires 1 <= |xs| <= Pow2(h)
  {
    if h == 0 then xs[0]
    else
      var half := Pow2(h - 1);
      if |xs| <= half then
        var lone := TopDown(hash256, xs, h - 1);
        hash256(Pair(lone, lone))
      else
        hash256(Pair(TopDown(hash256, xs[..half], h - 1), TopDown(hash256, xs[half..], h - 1)))
  }

  lemma UpAt(hash256: Hasher, xs: seq<Digest>, i: nat)
    requires i < (|xs| + 1) / 2
    ensures Up(hash256, xs)[i] == hash256(Pair(xs[2 * i], xs[if 2 * i + 1 < |xs| then 2 * i + 1 else 2 * i]))
  {
  }

  lemma UpFront(hash256: Hasher, xs: seq<Digest>, c: nat)
    requires 2 * c <= |xs|
    ensures Up(hash256, xs)[..c] == Up(hash256, xs[..2 * c])
  {
    hide Up;
    forall i | 0 <= i < c
      ensures Up(hash256, xs)[i] == Up(hash256, xs[..2 * c])[i]
    {
      UpAt(hash256, xs, i);
      UpAt(hash256, xs[..2 * c], i);
    }
  }

  lemma UpBack(hash256: Hasher, xs: seq<Digest>, c: nat)
    requires 2 * c <= |xs|
    ensures Up(hash256, xs)[c..] == Up(hash256, xs[2 * c..])
  {
    hide Up;
    var ys := Up(hash256, xs);
    forall i | 0 <= i < |ys| - c
      ensures ys[c..][i] == Up(hash256, xs[2 * c..])[i]
    {
      UpAt(hash256, xs, c + i);
      UpAt(hash256, xs[2 * c..], i);
    }
  }

  /** Going up once cuts a list at an even place in two. */
  lemma UpSplit(hash256: Hasher, xs: seq<Digest>, c: nat)
    requires 2 * c <= |xs|
    ensures Up(hash256, xs)[..c] == Up(hash256, xs[..2 * c])
    ensures Up(hash256, xs)[c..] == Up(hash256, xs[2 * c..])
  {
    UpFront(hash256, xs, c);
    UpBack(hash256, xs, c);
  }

  lemma TopDownLone(hash256: Hasher, xs: seq<Digest>, h: nat)
    requires h >= 1 && 1 <= |xs| <= Pow2(h - 1)
    ensures |xs| <= Pow2(h)
    ensures var lone := TopDown(hash256, xs, h - 1);
      TopDown(hash256, xs, h) == hash256(Pair(lone, lone))
  {
  }

  lemma TopDownSplit(hash256: Hasher, xs: seq<Digest>, h: nat, c: nat)
    requires h >= 1 && c == Pow2(h - 1) < |xs| <= Pow2(h)
    ensures TopDown(hash256, xs, h) ==
      hash256(Pair(TopDown(hash256, xs[..c], h - 1), TopDown(hash256, xs[c..], h - 1)))
  {
  }

  lemma TopDownOfTwo(hash256: Hasher, xs: seq<Digest>)
    requires 1 <= |xs| <= 2
    ensures Pow2(0) == 1 && Pow2(1) == 2
    ensures TopDown(hash256, Up(hash256, xs), 0) == TopDown(hash256, xs, 1)
  {
    if |xs| == 1 {
      TopDownLone(hash256, xs, 1);
    } else {
      TopDownSplit(hash256, xs, 1, 1);
    }
  }

  lemma UpLone(hash256: Hasher, xs: seq<Digest>, ys: seq<Digest>, h: nat)
    requires h >= 2 && 1 <= |xs| <= Pow2(h - 1) && 1 <= |ys| <= Pow2(h - 2)
    requires TopDown(hash256, ys, h - 2) == TopDown(hash256, xs, h - 1)
    ensures |xs| <= Pow2(h) && |ys| <= Pow2(h - 1)
    ensures TopDown(hash256, ys, h - 1) == TopDown(hash256, xs, h)
  {
    TopDownLone(hash256, xs, h);
    TopDownLone(hash256, ys, h - 1);
  }

  lemma UpHalves(hash256: Hasher, xs: seq<Digest>, ys: seq<Digest>, h: nat, half: nat, quarter: nat)
    requires h >= 2 && half == Pow2(h - 1) && quarter == Pow2(h - 2)
    requires half < |xs| <= Pow2(h) && quarter < |ys| <= half
    requires |xs[half..]| <= half && |ys[quarter..]| <= quarter
    requires TopDown(hash256, ys[..quarter], h - 2) == TopDown(hash256, xs[..half], h - 1)
    requires TopDown(hash256, ys[quarter..], h - 2) == TopDown(hash256, xs[half..], h - 1)
    ensures TopDown(hash256, ys, h - 1) == TopDown(hash256, xs, h)
  {
    hide TopDown;
    TopDownSplit(hash256, xs, h, half);
    TopDownSplit(hash256, ys, h - 1, quarter);
  }

  /** A level up takes one level off the top-down recursion. */
  lemma {:induction false} TopDownUp(hash256: Hasher, xs: seq<Digest>, h: nat)
    requires h >= 1 && 1 <= |xs| <= Pow2(h)
    ensures |Up(hash256, xs)| <= Pow2(h - 1)
    ensures TopDown(hash256, Up(hash256, xs), h - 1) == TopDown(hash256, xs, h)
  {
    hide TopDown, Up;
    if h == 1 {
      TopDownOfTwo(hash256, xs);
    } else {
      var half, quarter := Pow2(h - 1), Pow2(h - 2);
      assert half == 2 * quarter && Pow2(h) == 2 * half;
      var ys := Up(hash256, xs);
      if |xs| <= half {
        TopDownUp(hash256, xs, h - 1);
        UpLone(hash256, xs, ys, h);
      } else {
        TopDownUp(hash256, xs[..half], h - 1);
        TopDownUp(hash256, xs[half..], h - 1);
        UpSplit(hash256, xs, quarter);
        UpHalves(hash256, xs, ys, h, half, quarter);
      }
    }
  }

  /** The root built from the bottom is the one defined from the top. */
  lemma {:induction false} RootIsTopDown(hash256: Hasher, xs: seq<Digest>)
    requires |xs| >= 1
    ensures |xs| <= Pow2(Height(|xs|))
    ensures Root(hash256, xs) == TopDown(hash256, xs, Height(|xs|))
    decreases |xs|
  {
    hide Up, Pow2;
    HeightIsCeilLog2(|xs|);
    if |xs| > 1 {
      RootIsTopDown(hash256, Up(hash256, xs));
      TopDownUp(hash256, xs, Height(|xs|));
    }
  }

  // ---------- what the root binds ----------

  /** The leaves after every lone half has been written twice. */
  function Padded(xs: seq<Digest>, h: nat): (ys: seq<Digest>)
    requires 1 <= |xs| <= Pow2(h)
    ensures |ys| == Pow2(h)
  {
    if h == 0 then xs
    else
      var half := Pow2(h - 1);
      if |xs| <= half then Padded(xs, h - 1) + Padded(xs, h - 1)
      else Padded(xs[..half], h - 1) + Padded(xs[half..], h - 1)
  }

  /** The root of a complete tree. */
  function Complete(hash256: Hasher, ys: seq<Digest>, h: nat): Digest
    requires |ys| == Pow2(h)
  {
    if h == 0 then ys[0]
    else
      var half := Pow2(h - 1);
      hash256(Pair(Complete(hash256, ys[..half], h - 1), Complete(hash256, ys[half..], h - 1)))
  }

  lemma CompleteJoin(hash256: Hasher, p: seq<Digest>, q: seq<Digest>, h: nat)
    requires |p| == |q| == Pow2(h)
    ensures |p + q| == Pow2(h + 1)
    ensures Complete(hash256, p + q, h + 1) == hash256(Pair(Complete(hash256, p, h), Complete(hash256, q, h)))
  {
    assert (p + q)[..Pow2(h)] == p && (p + q)[Pow2(h)..] == q;
  }

  lemma CompleteLone(hash256: Hasher, xs: seq<Digest>, h: nat)
    requires 1 <= |xs| <= Pow2(h)
    ensures var c := Complete(hash256, Padded(xs, h), h);
      |xs| <= Pow2(h + 1) && Complete(hash256, Padded(xs, h + 1), h + 1) == hash256(Pair(c, c))
  {
    hide Complete, Pair;
    CompleteJoin(hash256, Padded(xs, h), Padded(xs, h), h);
  }

  lemma CompleteSplit(hash256: Hasher, xs: seq<Digest>, h: nat, c: nat)
    requires c == Pow2(h) < |xs| <= Pow2(h + 1)
    ensures Complete(hash256, Padded(xs, h + 1), h + 1) ==
      hash256(Pair(Complete(hash256, Padded(xs[..c], h), h), Complete(hash256, Padded(xs[c..], h), h)))
  {
    hide Complete, Pair;
    CompleteJoin(hash256, Padded(xs[..c], h), Padded(xs[c..], h), h);
  }

  lemma LeafIsComplete(hash256: Hasher, xs: seq<Digest>)
    requires 1 <= |xs| <= Pow2(0)
    ensures TopDown(hash256, xs, 0) == Complete(hash256, Padded(xs, 0), 0)
  {
  }

  lemma {:induction false} TopDownIsComplete(hash256: Hasher, xs: seq<Digest>, h: nat)
    requires 1 <= |xs| <= Pow2(h)
    ensures TopDown(hash256, xs, h) == Complete(hash256, Padded(xs, h), h)
  {
    hide Complete, Pair, TopDown, Padded, Pow2;
    if h == 0 {
      LeafIsComplete(hash256, xs);
    } else {
      var half := Pow2(h - 1);
      Pow2Succ(h - 1);
      if |xs| <= half {
        TopDownLone(hash256, xs, h);
        TopDownIsComplete(hash256, xs, h - 1);
        CompleteLone(hash256, xs, h - 1);
      } else {
        TopDownSplit(hash256, xs, h, half);
        TopDownIsComplete(hash256, xs[..half], h - 1);
        TopDownIsComplete(hash256, xs[half..], h - 1);
        CompleteSplit(hash256, xs, h - 1, half);
      }
    }
  }

  /** The 64-byte strings hashed inside a complete tree. */
  function Inputs(hash256: Hasher, ys: seq<Digest>, h: nat): set<seq<byte>>
    requires |ys| == Pow2(h)
  {
    if h == 0 then {}
    else
      var half := Pow2(h - 1);
      {Pair(Complete(hash256, ys[..half], h - 1), Complete(hash256, ys[half..], h - 1))}
      + Inputs(hash256, ys[..half], h - 1) + Inputs(hash256, ys[half..], h - 1)
  }

  lemma Shift(h: nat, j: nat, k: nat)
    requires j + 1 <= h
    ensures Pow2(h) + k * Pow2(j + 1) == (Pow2(h - j - 1) + k) * Pow2(j + 1)
  {
    hide Pow2;
    Pow2Add(h - j - 1, j + 1);
    Distributed(Pow2(h - j - 1), k, Pow2(j + 1));
  }

  lemma Distributed(a: nat, b: nat, c: nat)
    ensures a * c + b * c == (a + b) * c
  {
  }

  /** The input of a node: the roots of two neighbouring blocks of 2^j leaves. */
  predicate NodeInput(hash256: Hasher, ys: seq<Digest>, s: seq<byte>, j: nat, lo: nat) {
    var n := Pow2(j);
    lo + n + n <= |ys|
    && s == Pair(Complete(hash256, ys[lo..][..n], j), Complete(hash256, ys[lo + n..][..n], j))
  }

  lemma BlockOf<T>(ys: seq<T>, p: nat, q: nat, lo: nat, n: nat)
    requires p <= q <= |ys| && lo + n <= q - p
    ensures ys[p..q][lo..][..n] == ys[p + lo..][..n]
  {
  }

  lemma NodeInputInside(hash256: Hasher, ys: seq<Digest>, p: nat, q: nat, s: seq<byte>, j: nat, lo: nat)
    requires p <= q <= |ys| && NodeInput(hash256, ys[p..q], s, j, lo)
    ensures NodeInput(hash256, ys, s, j, p + lo)
  {
    hide Complete, Pair, Pow2;
    BlockOf(ys, p, q, lo, Pow2(j));
    BlockOf(ys, p, q, lo + Pow2(j), Pow2(j));
  }

  lemma InputCases(hash256: Hasher, ys: seq<Digest>, h: nat, s: seq<byte>)
    requires |ys| == Pow2(h) && s in Inputs(hash256, ys, h)
    ensures h >= 1 && Pow2(h) == 2 * Pow2(h - 1)
    ensures var half := Pow2(h - 1);
      NodeInput(hash256, ys, s, h - 1, 0)
      || s in Inputs(hash256, ys[0..half], h - 1) || s in Inputs(hash256, ys[half..|ys|], h - 1)
  {
    if h >= 1 {
      var half := Pow2(h - 1);
      assert ys[0..half] == ys[..half] == ys[0..][..half] && ys[half..|ys|] == ys[half..] == ys[0 + half..][..half];
    }
  }

  /** The strings hashed in a tree are inputs of its nodes and nothing else: the first block
      starts at a multiple of 2^(j + 1). */
  lemma {:induction false} InputIsNode(hash256: Hasher, ys: seq<Digest>, h: nat, s: seq<byte>)
    returns (j: nat, k: nat)
    requires |ys| == Pow2(h) && s in Inputs(hash256, ys, h)
    ensures j < h && NodeInput(hash256, ys, s, j, k * Pow2(j + 1))
    decreases h
  {
    hide Complete, Pair, Inputs, Pow2, NodeInput;
    InputCases(hash256, ys, h, s);
    var half := Pow2(h - 1);
    if s in Inputs(hash256, ys[0..half], h - 1) {
      j, k := InputIsNode(hash256, ys[0..half], h - 1, s);
      NodeInputInside(hash256, ys, 0, half, s, j, k * Pow2(j + 1));
    } else if s in Inputs(hash256, ys[half..|ys|], h - 1) {
      j, k := InputIsNode(hash256, ys[half..|ys|], h - 1, s);
      NodeInputInside(hash256, ys, half, |ys|, s, j, k * Pow2(j + 1));
      Shift(h - 1, j, k);
      k := Pow2(h - 1 - j - 1) + k;
    } else {
      j, k := h - 1, 0;
    }
  }

  /** Two different 64-byte strings with the same hash. */
  predicate Collision(hash256: Hasher, p: seq<byte>, q: seq<byte>) {
    |p| == |q| == 64 && p != q && hash256(p) == hash256(q)
  }

  /** Walking down two complete trees with the same root but different leaves ends at a
      collision, found among the strings hashed in the two trees. */
  lemma {:induction false} FindCollision(hash256: Hasher, a: seq<Digest>, b: seq<Digest>, h: nat)
    returns (p: seq<byte>, q: seq<byte>)
    requires |a| == |b| == Pow2(h) && a != b
    requires Complete(hash256, a, h) == Complete(hash256, b, h)
    ensures Collision(hash256, p, q) && p in Inputs(hash256, a, h) && q in Inputs(hash256, b, h)
  {
    hide Pair;
    if h == 0 {
      assert false;
    } else {
      var half := Pow2(h - 1);
      var la, ra, lb, rb := a[..half], a[half..], b[..half], b[half..];
      var x, y := Complete(hash256, la, h - 1), Complete(hash256, ra, h - 1);
      var x', y' := Complete(hash256, lb, h - 1), Complete(hash256, rb, h - 1);
      p, q := Pair(x, y), Pair(x', y');
      if p == q {
        assert x == p[..32] == x' && y == p[32..] == y';
        assert a == la + ra && b == lb + rb;
        if la != lb {
          p, q := FindCollision(hash256, la, lb, h - 1);
        } else {
          p, q := FindCollision(hash256, ra, rb, h - 1);
        }
      }
    }
  }

  /** For trees of the same height, lists whose padded forms agree have the same root, and
      otherwise equal roots give a collision away. */
  lemma SameRoot(hash256: Hasher, xs: seq<Digest>, ys: seq<Digest>) returns (p: seq<byte>, q: seq<byte>)
    requires |xs| >= 1 && |ys| >= 1 && Height(|xs|) == Height(|ys|)
    ensures var h := Height(|xs|);
      && |xs| <= Pow2(h) && |ys| <= Pow2(h)
      && (Padded(xs, h) == Padded(ys, h) ==> Root(hash256, xs) == Root(hash256, ys))
      && (Root(hash256, xs) == Root(hash256, ys) ==>
            Padded(xs, h) == Padded(ys, h) ||
            (Collision(hash256, p, q)
             && p in Inputs(hash256, Padded(xs, h), h) && q in Inputs(hash256, Padded(ys, h), h)))
  {
    var h := Height(|xs|);
    RootIsTopDown(hash256, xs);
    RootIsTopDown(hash256, ys);
    TopDownIsComplete(hash256, xs, h);
    TopDownIsComplete(hash256, ys, h);
    p, q := [], [];
    if Root(hash256, xs) == Root(hash256, ys) && Padded(xs, h) != Padded(ys, h) {
      p, q := FindCollision(hash256, Padded(xs, h), Padded(ys, h), h);
    }
  }

  lemma PrefixOfConcat<T>(xs: seq<T>, c: nat, a: seq<T>, b: seq<T>)
    requires c == |a| && c <= |xs| && xs[..c] == a && |xs| - c <= |b| && b[..|xs| - c] == xs[c..]
    ensures (a + b)[..|xs|] == xs
  {
    assert xs == xs[..c] + xs[c..];
  }

  lemma {:induction false} PaddedPrefix(xs: seq<Digest>, h: nat)
    requires 1 <= |xs| <= Pow2(h)
    ensures |xs| <= |Padded(xs, h)| && Padded(xs, h)[..|xs|] == xs
  {
    if h == 0 {
      assert xs[..|xs|] == xs;
    } else {
      var half := Pow2(h - 1);
      if |xs| <= half {
        PaddedPrefix(xs, h - 1);
        var q := Padded(xs, h - 1);
        assert (q + q)[..|xs|] == q[..|xs|];
      } else {
        PaddedPrefix(xs[half..], h - 1);
        PaddedPrefix(xs[..half], h - 1);
        var a, b := Padded(xs[..half], h - 1), Padded(xs[half..], h - 1);
        assert a[..half] == a;
        PrefixOfConcat(xs, half, a, b);
      }
    }
  }

  /** Binding: two leaf lists of equal length with the same root are equal, or two different
      64-byte strings with the same hash can be read off their trees. */
  lemma Binding(hash256: Hasher, xs: seq<Digest>, ys: seq<Digest>) returns (p: seq<byte>, q: seq<byte>)
    requires |xs| == |ys| >= 1 && Root(hash256, xs) == Root(hash256, ys)
    ensures var h := Height(|xs|);
      && |xs| <= Pow2(h)
      && (xs == ys || (Collision(hash256, p, q)
            && p in Inputs(hash256, Padded(xs, h), h) && q in Inputs(hash256, Padded(ys, h), h)))
  {
    p, q := SameRoot(hash256, xs, ys);
    var h := Height(|xs|);
    PaddedPrefix(xs, h);
    PaddedPrefix(ys, h);
    assert Padded(xs, h) == Padded(ys, h) ==> xs == Padded(xs, h)[..|xs|] == Padded(ys, h)[..|ys|] == ys;
  }

  // ---------- duplicated tails ----------

  lemma UpConcat(hash256: Hasher, xs: seq<Digest>, ys: seq<Digest>)
    requires |xs| % 2 == 0
    ensures Up(hash256, xs + ys) == Up(hash256, xs) + Up(hash256, ys)
  {
    hide Up;
    var c := |xs| / 2;
    UpSplit(hash256, xs + ys, c);
    assert (xs + ys)[..2 * c] == xs && (xs + ys)[2 * c..] == ys;
    var zs := Up(hash256, xs + ys);
    assert zs == zs[..c] + zs[c..];
  }

  lemma HalfOf(m: nat, k: nat, n: nat)
    requires k >= 1 && n == m * Pow2(k)
    ensures n % 2 == 0 && n / 2 == m * Pow2(k - 1) && Pow2(k) / 2 == Pow2(k - 1)
  {
    assert m * (2 * Pow2(k - 1)) == 2 * (m * Pow2(k - 1));
  }

  /** A tail of 2t leaves of an even number, one level up. */
  lemma UpTail(hash256: Hasher, xs: seq<Digest>, t: nat)
    requires |xs| % 2 == 0 && 2 * t <= |xs|
    ensures var ys := Up(hash256, xs);
      && |ys| == |xs| / 2
      && Up(hash256, xs + xs[|xs| - 2 * t..]) == ys + ys[|ys| - t..]
  {
    hide Up;
    UpBack(hash256, xs, |xs| / 2 - t);
    UpConcat(hash256, xs, xs[|xs| - 2 * t..]);
  }

  lemma UpOddCopy(hash256: Hasher, xs: seq<Digest>)
    requires |xs| % 2 == 1
    ensures Up(hash256, xs + xs[|xs| - 1..]) == Up(hash256, xs)
  {
    var zs := xs + xs[|xs| - 1..];
    assert forall i :: 0 <= i < (|xs| + 1) / 2 ==> Up(hash256, zs)[i] == Up(hash256, xs)[i];
  }

  /** Appending a copy of the last 2^k leaves leaves the root alone whenever their number
      is an odd multiple of 2^k above 2^k itself. */
  lemma {:induction false} DuplicatedTail(hash256: Hasher, xs: seq<Digest>, m: nat, k: nat)
    requires m > 1 && m % 2 == 1 && |xs| == m * Pow2(k) && Pow2(k) <= |xs|
    ensures Root(hash256, xs + xs[|xs| - Pow2(k)..]) == Root(hash256, xs)
    decreases k
  {
    hide Up;
    AtLeastTwo(m, Pow2(k));
    if k == 0 {
      assert Pow2(0) == 1 && |xs| == m;
      UpOddCopy(hash256, xs);
    } else {
      HalfOf(m, k, |xs|);
      UpTail(hash256, xs, Pow2(k - 1));
      DuplicatedTail(hash256, Up(hash256, xs), m, k - 1);
    }
  }

  lemma AtLeastTwo(m: nat, p: nat)
    requires m > 1 && p >= 1
    ensures m * p > 1
  {
    MulAtLeast(p, m);
    assert m * p == p + (m - 1) * p;
    MulAtLeast(p, m - 1);
  }

  /** When the leaves are a power of two, writing all of them twice instead adds a level on
      top, so the root stays only if it is the hash of itself twice. */
  lemma {:induction false} WholeDuplicated(hash256: Hasher, xs: seq<Digest>, k: nat)
    requires |xs| == Pow2(k)
    ensures Root(hash256, xs + xs) == hash256(Pair(Root(hash256, xs), Root(hash256, xs)))
    decreases k
  {
    var zs := xs + xs;
    if k == 0 {
      assert Up(hash256, zs)[0] == hash256(Pair(xs[0], xs[0]));
      assert Root(hash256, zs) == Root(hash256, Up(hash256, zs)) == Up(hash256, zs)[0];
    } else {
      UpConcat(hash256, xs, xs);
      WholeDuplicated(hash256, Up(hash256, xs), k - 1);
    }
  }

  // ---------- which lists share a root ----------

  predicate Distinct(xs: seq<Digest>) {
    forall i, j :: 0 <= i < j < |xs| ==> xs[i] != xs[j]
  }

  /** Whether m leaves can be padded to the same complete tree of height h as n different
      ones, n <= m: told from the numbers alone. */
  predicate SameShape(n: nat, m: nat, h: nat)
    requires 1 <= n <= m <= Pow2(h)
  {
    h == 0 ||
    var half := Pow2(h - 1);
    if n > half then SameShape(n - half, m - half, h - 1)
    else if m <= half then SameShape(n, m, h - 1)
    else n <= m - half && SameShape(n, m - half, h - 1)
  }

  lemma HalvesPadded(xs: seq<Digest>, h: nat, half: nat)
    requires h >= 1 && half == Pow2(h - 1) < |xs| <= Pow2(h)
    ensures Padded(xs, h) == Padded(xs[..half], h - 1) + Padded(xs[half..], h - 1)
  {
  }

  lemma PaddedNone(xs: seq<Digest>)
    requires |xs| == Pow2(0)
    ensures Padded(xs, 0) == xs
  {
  }

  lemma {:induction false} PaddedFull(xs: seq<Digest>, h: nat)
    requires |xs| == Pow2(h)
    ensures Padded(xs, h) == xs
  {
    hide Pow2, Padded;
    if h == 0 {
      PaddedNone(xs);
    } else {
      Pow2Succ(h - 1);
      var half := Pow2(h - 1);
      HalvesPadded(xs, h, half);
      PaddedFull(xs[..half], h - 1);
      PaddedFull(xs[half..], h - 1);
      assert xs[..half] + xs[half..] == xs;
    }
  }

  /** The first place behind the leaves repeats one of them. */
  lemma {:induction false} PaddedRepeats(xs: seq<Digest>, h: nat) returns (j: nat)
    requires 1 <= |xs| < Pow2(h)
    ensures j < |xs| && Padded(xs, h)[|xs|] == Padded(xs, h)[j]
  {
    var half := Pow2(h - 1);
    if |xs| < half {
      j := PaddedRepeats(xs, h - 1);
    } else if |xs| == half {
      j := 0;
    } else {
      var i := PaddedRepeats(xs[half..], h - 1);
      j := half + i;
    }
  }

  /** Fewer leaves cannot be padded like different ones. */
  lemma FewerDiffer(xs: seq<Digest>, ys: seq<Digest>, h: nat)
    requires Distinct(xs) && 1 <= |ys| < |xs| <= Pow2(h)
    ensures Padded(xs, h) != Padded(ys, h)
  {
    hide Padded;
    var j := PaddedRepeats(ys, h);
    PaddedPrefix(xs, h);
    assert Padded(xs, h)[..|xs|][|ys|] != Padded(xs, h)[..|xs|][j];
  }

  lemma PaddedLone(xs: seq<Digest>, h: nat)
    requires h >= 1 && 1 <= |xs| <= Pow2(h - 1)
    ensures |xs| <= Pow2(h) && Padded(xs, h) == Padded(xs, h - 1) + Padded(xs, h - 1)
  {
  }

  lemma PaddedSplit(xs: seq<Digest>, h: nat, half: nat)
    requires h >= 1 && half == Pow2(h - 1) < |xs| <= Pow2(h)
    ensures Padded(xs, h) == xs[..half] + Padded(xs[half..], h - 1)
  {
    HalvesPadded(xs, h, half);
    hide Padded, Pow2;
    PaddedFull(xs[..half], h - 1);
  }

  /** Two halves compared. */
  lemma HalvesEqual<T>(a: seq<T>, b: seq<T>, c: seq<T>, d: seq<T>)
    requires |a| == |c|
    ensures a + b == c + d <==> a == c && b == d
  {
    if a + b == c + d {
      assert a == (a + b)[..|a|] && c == (c + d)[..|c|] && b == (a + b)[|a|..] && d == (c + d)[|c|..];
    }
  }

  lemma PrefixHalves<T>(a: seq<T>, b: seq<T>, ys: seq<T>)
    requires |a| <= |ys| <= |a + b|
    ensures ys == (a + b)[..|ys|] <==> ys[..|a|] == a && ys[|a|..] == b[..|ys| - |a|]
  {
    assert (a + b)[..|ys|] == a + b[..|ys| - |a|];
    assert ys == ys[..|a|] + ys[|a|..];
    HalvesEqual(ys[..|a|], ys[|a|..], a, b[..|ys| - |a|]);
  }

  lemma ShapeStep(n: nat, m: nat, h: nat, half: nat)
    requires h >= 1 && half == Pow2(h - 1) && 1 <= n <= m <= Pow2(h)
    ensures SameShape(n, m, h) ==
      if n > half then SameShape(n - half, m - half, h - 1)
      else if m <= half then SameShape(n, m, h - 1)
      else n <= m - half && SameShape(n, m - half, h - 1)
  {
  }

  /** `ys` has a fitting length and is cut from the padded form of `xs`. */
  predicate CutFrom(xs: seq<Digest>, ys: seq<Digest>, h: nat)
    requires 1 <= |xs| <= |ys| <= Pow2(h)
  {
    SameShape(|xs|, |ys|, h) && ys == Padded(xs, h)[..|ys|]
  }

  lemma CutBothLong(xs: seq<Digest>, ys: seq<Digest>, h: nat, half: nat)
    requires h >= 1 && half == Pow2(h - 1) < |xs| <= |ys| <= Pow2(h)
    requires Padded(ys[half..], h - 1) == Padded(xs[half..], h - 1) <==> CutFrom(xs[half..], ys[half..], h - 1)
    ensures Padded(ys, h) == Padded(xs, h) <==> CutFrom(xs, ys, h)
  {
    hide Padded, SameShape, Pow2;
    ShapeStep(|xs|, |ys|, h, half);
    PaddedSplit(xs, h, half);
    PaddedSplit(ys, h, half);
    HalvesEqual(ys[..half], Padded(ys[half..], h - 1), xs[..half], Padded(xs[half..], h - 1));
    PrefixHalves(xs[..half], Padded(xs[half..], h - 1), ys);
  }

  lemma CutBothShort(xs: seq<Digest>, ys: seq<Digest>, h: nat)
    requires h >= 1 && 1 <= |xs| <= |ys| <= Pow2(h - 1)
    requires Padded(ys, h - 1) == Padded(xs, h - 1) <==> CutFrom(xs, ys, h - 1)
    ensures |ys| <= Pow2(h) && (Padded(ys, h) == Padded(xs, h) <==> CutFrom(xs, ys, h))
  {
    hide Padded, SameShape, Pow2;
    Pow2Succ(h - 1);
    ShapeStep(|xs|, |ys|, h, Pow2(h - 1));
    var q := Padded(xs, h - 1);
    PaddedLone(xs, h);
    PaddedLone(ys, h);
    HalvesEqual(Padded(ys, h - 1), Padded(ys, h - 1), q, q);
    assert (q + q)[..|ys|] == q[..|ys|];
  }

  lemma CutShortLong(xs: seq<Digest>, ys: seq<Digest>, h: nat, half: nat)
    requires h >= 1 && half == Pow2(h - 1) && 1 <= |xs| <= half < |ys| <= Pow2(h)
    requires Padded(ys[half..], h - 1) == Padded(xs, h - 1) <==>
      |xs| <= |ys| - half && CutFrom(xs, ys[half..], h - 1)
    ensures Padded(ys, h) == Padded(xs, h) <==> CutFrom(xs, ys, h)
  {
    hide Padded, SameShape, Pow2;
    Pow2Succ(h - 1);
    ShapeStep(|xs|, |ys|, h, half);
    var q := Padded(xs, h - 1);
    PaddedLone(xs, h);
    PaddedSplit(ys, h, half);
    HalvesEqual(ys[..half], Padded(ys[half..], h - 1), q, q);
    PrefixHalves(q, q, ys);
  }

  /** Exactly the lists of a fitting length that are cut from the padded form are padded to
      it again. */
  lemma {:induction false} SamePaddedIff(xs: seq<Digest>, ys: seq<Digest>, h: nat)
    requires Distinct(xs) && 1 <= |xs| <= |ys| <= Pow2(h)
    ensures Padded(ys, h) == Padded(xs, h) <==> CutFrom(xs, ys, h)
  {
    if h == 0 {
      assert ys[..1] == ys && xs[..1] == xs;
    } else {
      var half := Pow2(h - 1);
      assert Pow2(h) == 2 * half;
      hide Padded, CutFrom, Pow2;
      if |xs| > half {
        SamePaddedIff(xs[half..], ys[half..], h - 1);
        CutBothLong(xs, ys, h, half);
      } else if |ys| <= half {
        SamePaddedIff(xs, ys, h - 1);
        CutBothShort(xs, ys, h);
      } else {
        if |xs| <= |ys| - half {
          SamePaddedIff(xs, ys[half..], h - 1);
        } else {
          FewerDiffer(xs, ys[half..], h - 1);
        }
        CutShortLong(xs, ys, h, half);
      }
    }
  }

  /** The exact law for different leaves: a list of equal height has the same root if it is at
      least as long, its length fits and it is cut from the padded form, and otherwise equal
      roots give away a collision among the strings hashed in the two trees. */
  lemma SameRootIff(hash256: Hasher, xs: seq<Digest>, ys: seq<Digest>) returns (p: seq<byte>, q: seq<byte>)
    requires Distinct(xs) && |xs| >= 1 && |ys| >= 1 && Height(|xs|) == Height(|ys|)
    ensures var h := Height(|xs|);
      && |xs| <= Pow2(h) && |ys| <= Pow2(h)
      && var cut := |xs| <= |ys| && CutFrom(xs, ys, h);
      && (cut ==> Root(hash256, xs) == Root(hash256, ys))
      && (Root(hash256, xs) == Root(hash256, ys) && !cut ==>
            Collision(hash256, p, q)
            && p in Inputs(hash256, Padded(xs, h), h) && q in Inputs(hash256, Padded(ys, h), h))
  {
    hide Padded, CutFrom, Root, Inputs;
    p, q := SameRoot(hash256, xs, ys);
    if |xs| <= |ys| {
      SamePaddedIff(xs, ys, Height(|xs|));
    } else {
      FewerDiffer(xs, ys, Height(|xs|));
    }
  }

  // ---------- lists of different heights ----------

  /** The levels of a tree have its root, as many levels nearer. */
  lemma {:induction false} RootOfLevel(hash256: Hasher, xs: seq<Digest>, k: nat)
    requires |xs| >= 1 && k <= Height(|xs|)
    ensures |UpTimes(hash256, xs, k)| >= 1
    ensures Height(|UpTimes(hash256, xs, k)|) + k == Height(|xs|)
    ensures Root(hash256, UpTimes(hash256, xs, k)) == Root(hash256, xs)
  {
    hide Up;
    if k > 0 {
      RootOfLevel(hash256, xs, k - 1);
    }
  }

  /** For a tree that is k levels higher than another: equal padded forms of its k-th level
      and of the other's leaves mean equal roots, and equal roots mean that, or a collision
      among the strings hashed above. */
  lemma SameRootAnyHeight(hash256: Hasher, xs: seq<Digest>, ys: seq<Digest>, k: nat)
    returns (p: seq<byte>, q: seq<byte>)
    requires |xs| >= 1 && |ys| >= 1 && Height(|xs|) == Height(|ys|) + k
    ensures var h, zs := Height(|ys|), UpTimes(hash256, xs, k);
      && 1 <= |zs| <= Pow2(h) && |ys| <= Pow2(h)
      && (Padded(zs, h) == Padded(ys, h) ==> Root(hash256, xs) == Root(hash256, ys))
      && (Root(hash256, xs) == Root(hash256, ys) ==>
            Padded(zs, h) == Padded(ys, h) ||
            (Collision(hash256, p, q)
             && p in Inputs(hash256, Padded(zs, h), h) && q in Inputs(hash256, Padded(ys, h), h)))
  {
    hide Padded, Root, Inputs;
    RootOfLevel(hash256, xs, k);
    p, q := SameRoot(hash256, UpTimes(hash256, xs, k), ys);
  }

  /** So the root does not fix the number of leaves: half as many, the level above, have it. */
  lemma LevelAboveHasRoot(hash256: Hasher, xs: seq<Digest>)
    requires |xs| > 1
    ensures 1 <= |Up(hash256, xs)| < |xs| && Root(hash256, Up(hash256, xs)) == Root(hash256, xs)
  {
    hide Up;
  }

  /** The copied tail need not be a block that the length is a multiple of: five leaves and two
      more copies of the last have the same root. */
  lemma TailOfTwoCopies(hash256: Hasher, xs: seq<Digest>)
    requires |xs| == 5
    ensures Root(hash256, xs + [xs[4], xs[4]]) == Root(hash256, xs)
  {
    hide Root, Up;
    var ys := xs + [xs[4], xs[4]];
    UpOddCopy(hash256, xs);
    UpOddCopy(hash256, ys);
    DuplicatedTail(hash256, xs, 5, 0);
    assert xs + xs[4..] == xs + [xs[4]];
    SixToEight(hash256, xs + [xs[4]]);
    assert ys + ys[6..] == xs + [xs[4]] + (xs + [xs[4]])[4..];
    DuplicatedTail(hash256, ys, 7, 0);
  }

  lemma SixToEight(hash256: Hasher, xs: seq<Digest>)
    requires |xs| == 6
    ensures Root(hash256, xs + xs[4..]) == Root(hash256, xs)
  {
    assert Pow2(1) == 2;
    hide Root, Up, Pow2;
    DuplicatedTail(hash256, xs, 3, 1);
  }
}
