/** The tree of kyk_mkl_tree.c as it is allocated: nodes and levels on the heap, bodies
    filled in place, proved against the functions of MerkleTree. */
module MklTree {
  import opened Bytes
  import opened KykUtils
  import opened MerkleTree

  datatype NodeType = RootNode | BranchNode | LeafNode

  class MklNode {
    var childLft: MklNode?
    var childRgt: MklNode?
    var bdy: Digest
    var ntype: NodeType

    constructor (ntype: NodeType, childLft: MklNode?, childRgt: MklNode?)
      ensures this.ntype == ntype && this.childLft == childLft && this.childRgt == childRgt
    {
      this.ntype, this.childLft, this.childRgt := ntype, childLft, childRgt;
      this.bdy := seq(32, _ => 0);
    }
  }

  class MklLevel {
    var nd: seq<MklNode>
    var dwn: MklLevel?
    var len: nat
    var inx: nat

    constructor ()
      ensures nd == [] && dwn == null && len == 0 && inx == 0
    {
      nd, dwn, len, inx := [], null, 0, 0;
    }
  }

  /** A finished level: one node for each digest, holding it byte-reversed, and a lone node
      marked as the root. */
  ghost predicate LevelOk(level: MklLevel, raw: seq<Digest>)
    reads level, level.nd
  {
    && level.len == |level.nd| == |raw|
    && (forall i :: 0 <= i < |raw| ==> level.nd[i].bdy == Reverse(raw[i]))
    && (level.len == 1 ==> level.nd[0].ntype == RootNode)
  }

  method RootMklLevel(level: MklLevel) returns (res: int)
    requires level.len == |level.nd|
    ensures res == if level.len == 1 && level.nd[0].ntype == RootNode then 1 else 0
  {
    res := if level.len == 1 && level.nd[0].ntype == RootNode then 1 else 0;
  }

  /** Copies both children into a 64-byte buffer, turning each around, and stores the hash
      of the buffer turned around. */
  method HashMkltreeNode(hash256: Hasher, nd: MklNode, ghost l: Digest, ghost r: Digest)
    requires nd.childLft != null && nd.childRgt != null
    requires nd.childLft.bdy == Reverse(l) && nd.childRgt.bdy == Reverse(r)
    modifies nd`bdy
    ensures nd.bdy == Reverse(hash256(Pair(l, r)))
  {
    var tmpBuf := new byte[64];
    Memcpy(tmpBuf, 0, nd.childLft.bdy);
    assert tmpBuf[0..32] == Reverse(l);
    KykReverse(tmpBuf, 0, 32);
    ReverseTwice(l);
    assert tmpBuf[..32] == l;
    Memcpy(tmpBuf, 32, nd.childRgt.bdy);
    assert tmpBuf[32..32 + 32] == Reverse(r);
    KykReverse(tmpBuf, 32, 32);
    ReverseTwice(r);
    assert tmpBuf[..] == Pair(l, r);
    var dgst := new byte[32];
    Memcpy(dgst, 0, hash256(tmpBuf[..]));
    assert dgst[0..0 + 32] == hash256(tmpBuf[..]);
    KykReverse(dgst, 0, 32);
    assert dgst[..] == Reverse(hash256(Pair(l, r)));
    nd.bdy := dgst[..];
  }

  /** Every node of a level points to its two children; the last of an odd number of
      children is its own sibling. */
  ghost predicate Linked(level: MklLevel, child: MklLevel)
    reads level, level.nd, child
  {
    && child.len == |child.nd| >= 1
    && level.len == |level.nd| == (child.len + 1) / 2
    && (forall i :: 0 <= i < level.len ==> level.nd[i].childLft == child.nd[2 * i])
    && (forall i :: 0 <= i < level.len ==>
          level.nd[i].childRgt == child.nd[if 2 * i + 1 < child.len then 2 * i + 1 else 2 * i])
    && (forall i, j :: 0 <= i < j < level.len ==> level.nd[i] != level.nd[j])
  }

  /** Links a fresh level of branch nodes to the level below. */
  method UpMkltreeLevel(level: MklLevel, child: MklLevel)
    requires level != child && child.len == |child.nd| >= 1
    modifies level
    ensures Linked(level, child) && level.inx == child.inx + 1 && level.dwn == child
    ensures fresh(level.nd)
  {
    var len := if child.len % 2 == 0 then child.len / 2 else child.len / 2 + 1;
    var nodes: seq<MklNode> := [];
    for i := 0 to len
      invariant |nodes| == i && fresh(nodes)
      invariant forall k :: 0 <= k < i ==> nodes[k].childLft == child.nd[2 * k]
      invariant forall k :: 0 <= k < i ==>
        nodes[k].childRgt == child.nd[if 2 * k + 1 < child.len then 2 * k + 1 else 2 * k]
      invariant forall j, k :: 0 <= j < k < i ==> nodes[j] != nodes[k]
    {
      var lft := child.nd[i * 2];
      var rgt := lft;
      if !(i * 2 + 1 > child.len - 1) {
        rgt := child.nd[i * 2 + 1];
      }
      var n := new MklNode(BranchNode, lft, rgt);
      nodes := nodes + [n];
    }
    level.nd := nodes;
    level.len := len;
    level.inx := child.inx + 1;
    level.dwn := child;
  }

  /** Fills in the bodies of a level from those of the level below. */
  method HashMkltreeLevel(hash256: Hasher, level: MklLevel, child: MklLevel, ghost raw: seq<Digest>)
    requires Linked(level, child) && LevelOk(child, raw)
    requires forall i, j :: 0 <= i < level.len && 0 <= j < child.len ==> level.nd[i] != child.nd[j]
    modifies level.nd`bdy
    ensures Linked(level, child)
    ensures forall i :: 0 <= i < level.len ==> level.nd[i].bdy == Reverse(Up(hash256, raw)[i])
  {
    hide Reverse, Pair, Up;
    ghost var up := Up(hash256, raw);
    for i := 0 to level.len
      invariant forall k :: 0 <= k < i ==> level.nd[k].bdy == Reverse(up[k])
      invariant forall k :: 0 <= k < |raw| ==> child.nd[k].bdy == Reverse(raw[k])
    {
      ghost var j := if 2 * i + 1 < |raw| then 2 * i + 1 else 2 * i;
      UpAt(hash256, raw, i);
      HashMkltreeNode(hash256, level.nd[i], raw[2 * i], raw[j]);
    }
  }

  /** The level above: the level itself when it is the root already. */
  method CreateParentMklLevel(hash256: Hasher, level: MklLevel, ghost raw: seq<Digest>) returns (pnt: MklLevel)
    requires LevelOk(level, raw) && |raw| >= 1
    ensures |raw| == 1 ==> pnt == level
    ensures |raw| > 1 ==> LevelOk(pnt, Up(hash256, raw)) && pnt.dwn == level && pnt.inx == level.inx + 1
  {
    hide Up;
    var root := RootMklLevel(level);
    if root == 1 {
      return level;
    }
    pnt := new MklLevel();
    UpMkltreeLevel(pnt, level);
    HashMkltreeLevel(hash256, pnt, level, raw);
    if pnt.len == 1 {
      pnt.nd[0].ntype := RootNode;
    }
  }

  function CeilDiv(n: nat, d: nat): nat
    requires d >= 1
  {
    (n + d - 1) / d
  }

  /** Level k of a tree over n leaves has n / 2^k nodes, rounded up. */
  lemma {:induction false} LevelWidth(hash256: Hasher, raw: seq<Digest>, k: nat)
    ensures |UpTimes(hash256, raw, k)| == CeilDiv(|raw|, Pow2(k))
  {
    hide Up, CeilDiv;
    if k == 0 {
      CeilDivOne(|raw|);
    } else {
      LevelWidth(hash256, raw, k - 1);
      HalvedCeil(|raw|, Pow2(k - 1));
    }
  }

  lemma CeilDivOne(n: nat)
    ensures CeilDiv(n, 1) == n
  {
  }

  lemma HalvedCeil(n: nat, p: nat)
    requires p >= 1
    ensures (CeilDiv(n, p) + 1) / 2 == CeilDiv(n, 2 * p)
  {
    var x, y := n + p - 1, n + 2 * p - 1;
    var c := x / p;
    assert x == p * c + x % p;
    var h := (c + 1) / 2;
    if c % 2 == 1 {
      assert c == 2 * h - 1;
      assert p * c == (2 * p) * h - p by { assert p * (2 * h - 1) == (2 * p) * h - p; }
      DivModUnique(y, 2 * p, h, x % p);
    } else {
      assert c == 2 * h;
      assert p * c == (2 * p) * h by { assert p * (2 * h) == (2 * p) * h; }
      DivModUnique(y, 2 * p, h, x % p + p);
    }
  }

  /** The levels from the leaves up: level k holds the digests k levels above the leaves,
      counts n / 2^k nodes rounded up, is numbered k more than the leaves, and hangs on
      the level below. */
  ghost predicate Tower(levels: seq<MklLevel>, hash256: Hasher, raw: seq<Digest>)
    reads levels, set k, i | 0 <= k < |levels| && 0 <= i < |levels[k].nd| :: levels[k].nd[i]
  {
    && |levels| >= 1
    && (forall k :: 0 <= k < |levels| ==> LevelOk(levels[k], UpTimes(hash256, raw, k)))
    && (forall k :: 0 <= k < |levels| ==> levels[k].len == CeilDiv(|raw|, Pow2(k)))
    && (forall k :: 0 <= k < |levels| ==> levels[k].inx == levels[0].inx + k)
    && (forall k :: 0 < k < |levels| ==> levels[k].dwn == levels[k - 1])
  }

  lemma TowerGrows(levels: seq<MklLevel>, pnt: MklLevel, hash256: Hasher, raw: seq<Digest>)
    requires Tower(levels, hash256, raw)
    requires LevelOk(pnt, Up(hash256, UpTimes(hash256, raw, |levels| - 1)))
    requires pnt.dwn == levels[|levels| - 1] && pnt.inx == levels[|levels| - 1].inx + 1
    ensures Tower(levels + [pnt], hash256, raw)
  {
    hide Up, Pow2, CeilDiv;
    LevelWidth(hash256, raw, |levels|);
    assert UpTimes(hash256, raw, |levels|) == Up(hash256, UpTimes(hash256, raw, |levels| - 1));
    var all := levels + [pnt];
    hide UpTimes, LevelOk;
    assert forall k :: 0 <= k < |levels| ==> all[k] == levels[k];
  }

  lemma TowerStarts(leaf: MklLevel, hash256: Hasher, raw: seq<Digest>)
    requires LevelOk(leaf, raw)
    ensures Tower([leaf], hash256, raw)
  {
    assert Pow2(0) == 1;
    LevelWidth(hash256, raw, 0);
  }

  /** `cur` are the digests k levels above the leaves, and the root is as far away as k says. */
  ghost predicate Climbed(hash256: Hasher, raw: seq<Digest>, cur: seq<Digest>, k: nat) {
    && cur == UpTimes(hash256, raw, k) && |raw| >= 1 && |cur| >= 1
    && Height(|cur|) + k == Height(|raw|) && Root(hash256, cur) == Root(hash256, raw)
  }

  lemma NotClimbed(hash256: Hasher, raw: seq<Digest>)
    requires |raw| >= 1
    ensures Climbed(hash256, raw, raw, 0)
  {
  }

  lemma Climb(hash256: Hasher, raw: seq<Digest>, cur: seq<Digest>, k: nat)
    requires Climbed(hash256, raw, cur, k) && |cur| > 1
    ensures Climbed(hash256, raw, Up(hash256, cur), k + 1)
    ensures cur == UpTimes(hash256, raw, k)
  {
    hide Up;
  }

  lemma AtTheTop(hash256: Hasher, raw: seq<Digest>, cur: seq<Digest>, k: nat)
    requires Climbed(hash256, raw, cur, k) && |cur| == 1
    ensures |raw| >= 1 && k == Height(|raw|) && cur[0] == Root(hash256, raw)
  {
  }

  /** Builds the levels above the leaves until one node is left. `levels` lists them from
      the leaves up: there are as many above the leaves as the rounded-up logarithm of
      their number. */
  method CreateMklTree(hash256: Hasher, leafLevel: MklLevel, ghost raw: seq<Digest>)
    returns (pntLevel: MklLevel, ghost levels: seq<MklLevel>)
    requires LevelOk(leafLevel, raw) && |raw| >= 1
    ensures |levels| == Height(|raw|) + 1 && levels[0] == leafLevel && levels[|levels| - 1] == pntLevel
    ensures Tower(levels, hash256, raw) && pntLevel.inx == leafLevel.inx + Height(|raw|)
    ensures |raw| <= Pow2(Height(|raw|)) && pntLevel.len == |pntLevel.nd| == 1
    ensures pntLevel.nd[0].bdy == Reverse(TopDown(hash256, raw, Height(|raw|)))
  {
    hide Up, Reverse, TopDown, Tower, Climbed, Height, Root, Pow2;
    RootIsTopDown(hash256, raw);
    NotClimbed(hash256, raw);
    TowerStarts(leafLevel, hash256, raw);
    levels := [leafLevel];
    ghost var cur := raw;
    pntLevel := CreateParentMklLevel(hash256, leafLevel, cur);
    if |cur| > 1 {
      TowerGrows(levels, pntLevel, hash256, raw);
      Climb(hash256, raw, cur, 0);
      cur, levels := Up(hash256, cur), levels + [pntLevel];
    }
    var root := RootMklLevel(pntLevel);
    while root != 1
      invariant |levels| >= 1 && levels[0] == leafLevel && levels[|levels| - 1] == pntLevel
      invariant Climbed(hash256, raw, cur, |levels| - 1) && |cur| >= 1 && LevelOk(pntLevel, cur)
      invariant root == 1 <==> |cur| == 1
      invariant Tower(levels, hash256, raw)
      invariant pntLevel.inx == leafLevel.inx + |levels| - 1
      decreases pntLevel.len
    {
      Climb(hash256, raw, cur, |levels| - 1);
      pntLevel := CreateParentMklLevel(hash256, pntLevel, cur);
      TowerGrows(levels, pntLevel, hash256, raw);
      cur, levels := Up(hash256, cur), levels + [pntLevel];
      root := RootMklLevel(pntLevel);
    }
    AtTheTop(hash256, raw, cur, |levels| - 1);
  }

  function LeafHashes(hash256: Hasher, bufs: seq<seq<byte>>): (raw: seq<Digest>)
    ensures |raw| == |bufs|
  {
    seq(|bufs|, i requires 0 <= i < |bufs| => hash256(bufs[i]))
  }

  /** The tree over transactions from the top: one transaction gives its hash, a half that is not
      longer than a smaller tree is hashed with itself. */
  function TxTree(hash256: Hasher, bufs: seq<seq<byte>>, h: nat): Digest
    requires 1 <= |bufs| <= Pow2(h)
  {
    if h == 0 then hash256(bufs[0])
    else
      var half := Pow2(h - 1);
      if |bufs| <= half then
        var lone := TxTree(hash256, bufs, h - 1);
        hash256(Pair(lone, lone))
      else
        hash256(Pair(TxTree(hash256, bufs[..half], h - 1), TxTree(hash256, bufs[half..], h - 1)))
  }

  lemma LeafHashesCut(hash256: Hasher, bufs: seq<seq<byte>>, c: nat)
    requires c <= |bufs|
    ensures LeafHashes(hash256, bufs)[..c] == LeafHashes(hash256, bufs[..c])
    ensures LeafHashes(hash256, bufs)[c..] == LeafHashes(hash256, bufs[c..])
  {
  }

  /** It is the tree over the leaf hashes. */
  lemma {:induction false} TxTreeIsTopDown(hash256: Hasher, bufs: seq<seq<byte>>, h: nat)
    requires 1 <= |bufs| <= Pow2(h)
    ensures TxTree(hash256, bufs, h) == TopDown(hash256, LeafHashes(hash256, bufs), h)
  {
    if h > 0 {
      var half := Pow2(h - 1);
      assert Pow2(h) == 2 * half;
      hide Pair, TopDown, LeafHashes, Pow2;
      var xs := LeafHashes(hash256, bufs);
      if |bufs| <= half {
        TopDownLone(hash256, xs, h);
        TxTreeIsTopDown(hash256, bufs, h - 1);
      } else {
        TopDownSplit(hash256, xs, h, half);
        LeafHashesCut(hash256, bufs, half);
        TxTreeIsTopDown(hash256, bufs[..half], h - 1);
        TxTreeIsTopDown(hash256, bufs[half..], h - 1);
      }
    }
  }

  /** The root over a list of transactions. */
  function TxRoot(hash256: Hasher, bufs: seq<seq<byte>>): Digest
    requires |bufs| >= 1
  {
    HeightIsCeilLog2(|bufs|);
    TxTree(hash256, bufs, Height(|bufs|))
  }

  /** The roots of one, two and three transactions written out. */
  lemma SmallRoots(hash256: Hasher, a: seq<byte>, b: seq<byte>, c: seq<byte>)
    ensures var x: seq<byte>, y: seq<byte>, z: seq<byte> := hash256(a), hash256(b), hash256(c);
      var xy: seq<byte>, zz: seq<byte> := hash256(x + y), hash256(z + z);
      && TxRoot(hash256, [a]) == x
      && TxRoot(hash256, [a, b]) == hash256(x + y)
      && TxRoot(hash256, [a, b, c]) == hash256(xy + zz)
  {
    assert Height(1) == 0 && Height(2) == 1 && Height(3) == 2 && Pow2(0) == 1 && Pow2(1) == 2;
    var two, three := [a, b], [a, b, c];
    assert two[..1] == [a] && two[1..] == [b] && three[..2] == two && three[2..] == [c];
    assert TxTree(hash256, two, 1) == hash256(Pair(hash256(a), hash256(b)));
    assert TxTree(hash256, [c], 1) == hash256(Pair(hash256(c), hash256(c)));
  }

  /** The leaf level over a list of transactions; its number is 1. */
  method CreateMklLeafs(hash256: Hasher, bufs: seq<seq<byte>>) returns (level: MklLevel)
    ensures fresh(level) && LevelOk(level, LeafHashes(hash256, bufs)) && level.inx == 1
    ensures |level.nd| == |bufs| && forall i :: 0 <= i < |bufs| ==> level.nd[i].bdy == Reverse(hash256(bufs[i]))
  {
    hide Reverse;
    level := new MklLevel();
    level.inx := 1;
    for i := 0 to |bufs|
      invariant fresh(level) && fresh(level.nd) && level.inx == 1 && level.len == |level.nd| == i
      invariant forall k :: 0 <= k < i ==> level.nd[k].bdy == Reverse(hash256(bufs[k]))
    {
      var nd := HashMklLeaf(hash256, bufs[i]);
      level.nd := level.nd + [nd];
      level.len := level.len + 1;
    }
    if level.len == 1 {
      level.nd[0].ntype := RootNode;
    }
  }

  method HashMklLeaf(hash256: Hasher, buf: seq<byte>) returns (nd: MklNode)
    ensures fresh(nd) && nd.bdy == Reverse(hash256(buf))
  {
    nd := new MklNode(LeafNode, null, null);
    var dgst := new byte[32];
    Memcpy(dgst, 0, hash256(buf));
    assert dgst[0..0 + MKL_NODE_BODY_LEN] == hash256(buf);
    KykReverse(dgst, 0, MKL_NODE_BODY_LEN);
    assert dgst[..] == Reverse(hash256(buf));
    nd.bdy := dgst[..];
  }

  method KykCpyMklRootValue(src: array<byte>, rootLevel: MklLevel)
    requires src.Length >= MKL_NODE_BODY_LEN && |rootLevel.nd| >= 1
    modifies src
    ensures src[..] == Splice(old(src[..]), 0, rootLevel.nd[0].bdy)
  {
    Memcpy(src, 0, rootLevel.nd[0].bdy);
  }

  /** The strings p and q show a collision: two transactions at the same place, or two strings
      hashed inside the trees over the transactions. */
  ghost predicate CollisionIn(hash256: Hasher, a: seq<seq<byte>>, b: seq<seq<byte>>, p: seq<byte>, q: seq<byte>)
    requires |a| == |b| >= 1 && |a| <= Pow2(Height(|a|))
  {
    var h, xs, ys := Height(|a|), LeafHashes(hash256, a), LeafHashes(hash256, b);
    && p != q && hash256(p) == hash256(q)
    && ((exists i :: 0 <= i < |a| && p == a[i] && q == b[i])
        || (p in Inputs(hash256, Padded(xs, h), h) && q in Inputs(hash256, Padded(ys, h), h)))
  }

  /** From transactions to the root: lists of as many transactions with the same root hold
      the same transactions, or a collision is read off the transactions or their trees. */
  lemma TransactionsBound(hash256: Hasher, a: seq<seq<byte>>, b: seq<seq<byte>>) returns (p: seq<byte>, q: seq<byte>)
    requires |a| == |b| >= 1
    requires Root(hash256, LeafHashes(hash256, a)) == Root(hash256, LeafHashes(hash256, b))
    ensures |a| <= Pow2(Height(|a|)) && (a == b || CollisionIn(hash256, a, b, p, q))
  {
    hide Root, Padded, Inputs;
    var xs, ys := LeafHashes(hash256, a), LeafHashes(hash256, b);
    p, q := Binding(hash256, xs, ys);
    if xs == ys && a != b {
      var i :| 0 <= i < |a| && a[i] != b[i];
      p, q := a[i], b[i];
      assert xs[i] == ys[i];
    }
  }
}
