/** The streaming Merkle tree (MerkleTree.h).

    `Tree` consumes data in pieces: a stack of pending blocks acts as a binary counter, full
    blocks of the chosen block size become leaves, `Finalize` folds the rest and computes the root
    from the leaves.  `Root` is the independent definition: the tree hash over the 1024-byte base
    blocks, split at the largest power of two below their number.  The two agree for every data
    and for every block size that is 1024 times a power of two, so the root does not depend on
    the block size and the stored leaves always lead back to it.

    The hash function is abstract: `leafHash` hashes a base block, `combine` two child hashes. */
module MerkleTree {

  type Byte = x: int | 0 <= x < 256

  const BASE := 1024

  // ---------------------------------------------------------------- powers of two

  predicate IsPow2(n: int) {
    n == 1 || (n > 1 && n % 2 == 0 && IsPow2(n / 2))
  }

  lemma {:induction false} AtLeastOne(n: int)
    requires IsPow2(n)
    ensures n >= 1
  {}

  lemma {:induction false} Doubled(n: int)
    requires IsPow2(n)
    ensures IsPow2(2 * n)
  {
    assert 2 * n / 2 == n;
  }

  /** Between a power of two and its double there is no other one. */
  lemma {:induction false} Pow2Gap(a: int, b: int)
    requires IsPow2(a) && IsPow2(b) && a < b
    ensures 2 * a <= b
  {
    if a > 1 { Pow2Gap(a / 2, b / 2); }
  }

  lemma {:induction false} Pow2Product(a: int, b: int)
    requires IsPow2(a) && IsPow2(b)
    ensures IsPow2(a * b)
  {
    if a > 1 {
      Pow2Product(a / 2, b);
      assert a * b == 2 * (a / 2 * b) by { assert a == 2 * (a / 2); }
      Doubled(a / 2 * b);
    }
  }

  lemma {:induction false} Distribute(a: int, b: int, c: int)
    ensures a * (b - c) == a * b - a * c
  {}

  lemma {:induction false} ProductAtLeast(a: int, d: int)
    requires a > 0 && d >= 1
    ensures a * d >= a
  {}

  // ---------------------------------------------------------------- the reference tree

  /** The largest power of two below n. */
  function Split(n: int): (l: int)
    requires n >= 2
    ensures IsPow2(l) && l < n <= 2 * l
  {
    GrowToSplit(1, n)
  }

  /** getHash's loop: double until the double no longer fits. */
  function GrowToSplit(l: int, n: int): (r: int)
    requires l >= 1 && l < n
    requires IsPow2(l)
    ensures IsPow2(r) && l <= r < n <= 2 * r
    decreases n - l
  {
    if 2 * l < n then Doubled(l); GrowToSplit(2 * l, n) else l
  }

  lemma {:induction false} SplitUnique(l: int, n: int)
    requires IsPow2(l) && l < n <= 2 * l && n >= 2
    ensures Split(n) == l
  {
    var s := Split(n);
    if s < l { Pow2Gap(s, l); }
    if l < s { Pow2Gap(l, s); }
  }

  /** The root over a non-empty list of base hashes. */
  function Root<H>(s: seq<H>, combine: (H, H) -> H): H
    requires s != []
    decreases |s|
  {
    if |s| == 1 then s[0]
    else var k := Split(|s|); combine(Root(s[..k], combine), Root(s[k..], combine))
  }

  /** Two neighbouring trees join into one when the left one is full and not the smaller. */
  lemma {:induction false} RootJoin<H>(a: seq<H>, b: seq<H>, combine: (H, H) -> H)
    requires IsPow2(|a|) && 1 <= |b| <= |a|
    ensures Root(a + b, combine) == combine(Root(a, combine), Root(b, combine))
  {
    SplitUnique(|a|, |a + b|);
    assert (a + b)[..|a|] == a && (a + b)[|a|..] == b;
  }

  /** The base hashes of a piece of data: one per 1024 bytes, the last may be shorter. */
  function BaseHashes<H>(data: seq<Byte>, leafHash: seq<Byte> -> H): (r: seq<H>)
    ensures |r| == Blocks(|data|, BASE)
  {
    if |data| <= BASE then [leafHash(data)]
    else [leafHash(data[..BASE])] + BaseHashes(data[BASE..], leafHash)
  }

  /** calcBlocks: rounded up, at least one. */
  function Blocks(size: nat, blockSize: int): (n: nat)
    requires blockSize > 0
  {
    var n := (size + blockSize - 1) / blockSize;
    if n < 1 then 1 else n
  }

  /** 2 to the k. */
  function Pow2(k: nat): (p: nat)
    ensures IsPow2(p) && p >= 1
  {
    if k == 0 then 1 else Doubled(Pow2(k - 1)); 2 * Pow2(k - 1)
  }

  /** calcBlockSize: the smallest doubling of the base block with which the leaves stay within
      `1 << (maxLevels - 1)`. */
  method CalcBlockSize(fileSize: nat, maxLevels: nat) returns (tmp: nat)
    requires maxLevels >= 1
    ensures tmp >= 1024 && tmp % 1024 == 0 && IsPow2(tmp / 1024)
    ensures Blocks(fileSize, tmp) <= Pow2(maxLevels - 1)
    ensures tmp == 1024 || Blocks(fileSize, tmp / 2) > Pow2(maxLevels - 1)
  {
    tmp := BASE;
    var maxHashes := Pow2(maxLevels - 1);
    hide Pow2, Blocks;
    while maxHashes * tmp < fileSize
      invariant tmp >= BASE && tmp % BASE == 0 && IsPow2(tmp / BASE)
      invariant tmp == BASE || (tmp % 2 == 0 && maxHashes * (tmp / 2) < fileSize)
      decreases fileSize - tmp
    {
      Doubled(tmp / BASE);
      ProductAtLeast(tmp, maxHashes);
      DoubledBlock(tmp);
      tmp := tmp * 2;
    }
    FitsExactly(fileSize, tmp, maxHashes);
    if tmp != BASE { FitsExactly(fileSize, tmp / 2, maxHashes); }
  }

  lemma {:induction false} DoubledBlock(n: nat)
    requires n % BASE == 0
    ensures n * 2 / 2 == n && n * 2 % BASE == 0 && n * 2 / BASE == 2 * (n / BASE)
  {}

  /** calcBlocks against a limit. */
  lemma {:induction false} FitsExactly(size: nat, bs: nat, limit: nat)
    requires bs > 0 && limit >= 1
    ensures Blocks(size, bs) <= limit <==> size <= limit * bs
  {
    BlocksBounds(size, bs);
    var c := Blocks(size, bs);
    if c <= limit {
      Distribute(bs, limit, c);
    } else if limit < c - 1 {
      Distribute(bs, c - 1, limit);
      ProductAtLeast(bs, c - 1 - limit);
    }
  }

  /** The k-th 1024 bytes, the last ones possibly fewer. */
  function Piece(data: seq<Byte>, k: nat): seq<Byte>
    requires 1024 * k <= |data|
  {
    if |data| < 1024 * (k + 1) then data[1024 * k..] else data[1024 * k..1024 * (k + 1)]
  }

  lemma {:induction false} PieceBehind(data: seq<Byte>, k: nat)
    requires 1024 * k < |data| && k > 0
    ensures 1024 * (k - 1) < |data[1024..]| && Piece(data[1024..], k - 1) == Piece(data, k)
  {}

  lemma {:induction false} HashesBehind<H>(data: seq<Byte>, leafHash: seq<Byte> -> H)
    requires |data| > 1024
    ensures BaseHashes(data, leafHash) == [leafHash(data[..1024])] + BaseHashes(data[1024..], leafHash)
  {
    hide Blocks;
  }

  /** The k-th base hash is that of the k-th piece; empty data has one as well. */
  lemma {:induction false} BaseHashesExactly<H>(data: seq<Byte>, leafHash: seq<Byte> -> H, k: nat)
    requires k == 0 || 1024 * k < |data|
    ensures k < |BaseHashes(data, leafHash)| && BaseHashes(data, leafHash)[k] == leafHash(Piece(data, k))
  {
    if |data| <= 1024 {
      assert Piece(data, 0) == data;
      hide Blocks;
    } else {
      HashesBehind(data, leafHash);
      hide Blocks, BaseHashes;
      if k > 0 {
        PieceBehind(data, k);
        hide Piece;
        BaseHashesExactly(data[1024..], leafHash, k - 1);
      } else {
        assert Piece(data, 0) == data[..1024];
      }
    }
  }

  /** The root of the data itself: what every tree over it has to produce. */
  function DataRoot<H>(data: seq<Byte>, leafHash: seq<Byte> -> H, combine: (H, H) -> H): H {
    Root(BaseHashes(data, leafHash), combine)
  }

  /** The base hashes that `Update` still has to add from position i on. */
  function Remaining<H>(piece: seq<Byte>, i: nat, first: bool, leafHash: seq<Byte> -> H): seq<H>
    requires i <= |piece|
  {
    if first || i < |piece| then BaseHashes(piece[i..], leafHash) else []
  }

  lemma {:induction false} RemainingEnds<H>(piece: seq<Byte>, leafHash: seq<Byte> -> H)
    ensures Remaining(piece, 0, true, leafHash) == BaseHashes(piece, leafHash)
    ensures Remaining(piece, |piece|, false, leafHash) == []
  {
    assert piece[0..] == piece;
  }

  lemma {:induction false} RemainingStep<H>(piece: seq<Byte>, i: nat, n: nat, first: bool, leafHash: seq<Byte> -> H)
    requires i <= |piece| && n == (if BASE < |piece| - i then BASE else |piece| - i)
    requires (first && i == 0) || i < |piece|
    ensures Remaining(piece, i, first, leafHash) ==
      [leafHash(piece[i..i + n])] + Remaining(piece, i + n, false, leafHash)
  {
    var rest := piece[i..];
    assert rest[..n] == piece[i..i + n] && rest[n..] == piece[i + n..];
    if n == |rest| { assert rest == piece[i..i + n]; }
  }

  lemma {:induction false} FirstBase<H>(first: seq<Byte>, rest: seq<Byte>, leafHash: seq<Byte> -> H)
    requires |first| == BASE && rest != []
    ensures BaseHashes(first + rest, leafHash) == [leafHash(first)] + BaseHashes(rest, leafHash)
  {
    hide Blocks;
    assert (first + rest)[..BASE] == first && (first + rest)[BASE..] == rest;
  }

  lemma {:induction false} WholeBases(n: nat)
    requires n > 0 && n % BASE == 0
    ensures n >= BASE && (n - BASE) % BASE == 0
  {}

  lemma {:induction false} Parts<T>(a: seq<T>, b: seq<T>, n: nat)
    requires n <= |a|
    ensures a == a[..n] + a[n..] && a + b == a[..n] + (a[n..] + b)
  {}

  lemma {:induction false} Regrouped<T>(a: seq<T>, b: seq<T>, c: seq<T>)
    ensures a + (b + c) == (a + b) + c
  {}

  /** Data fed in pieces of whole base blocks gives the base hashes of the whole. */
  lemma {:induction false} BaseHashesAppend<H>(a: seq<Byte>, b: seq<Byte>, leafHash: seq<Byte> -> H)
    requires |a| % BASE == 0 && a != [] && b != []
    ensures BaseHashes(a + b, leafHash) == BaseHashes(a, leafHash) + BaseHashes(b, leafHash)
  {
    WholeBases(|a|);
    assert |a| <= BASE ==> BaseHashes(a, leafHash) == [leafHash(a)];
    hide Blocks, BaseHashes;
    if |a| <= BASE {
      FirstBase(a, b, leafHash);
    } else {
      var first, rest := a[..BASE], a[BASE..];
      BaseHashesAppend(rest, b, leafHash);
      FirstBase(first, rest, leafHash);
      FirstBase(first, rest + b, leafHash);
      Parts(a, b, BASE);
      Regrouped([leafHash(first)], BaseHashes(rest, leafHash), BaseHashes(b, leafHash));
    }
  }

  // ---------------------------------------------------------------- leaves

  /** The roots of consecutive groups of k base hashes; the last group may be smaller. */
  function LeavesOf<H>(hs: seq<H>, k: nat, combine: (H, H) -> H): (r: seq<H>)
    requires k > 0
    ensures hs == [] <==> r == []
  {
    if hs == [] then []
    else if |hs| <= k then [Root(hs, combine)]
    else [Root(hs[..k], combine)] + LeavesOf(hs[k..], k, combine)
  }

  /** n is a multiple of k. */
  predicate Whole(n: int, k: nat)
    requires k > 0
  {
    n == 0 || (n >= k && Whole(n - k, k))
  }

  lemma {:induction false} LeavesAppend<H>(hs: seq<H>, c: seq<H>, k: nat, combine: (H, H) -> H)
    requires k > 0 && Whole(|hs|, k) && 1 <= |c| <= k
    ensures LeavesOf(hs + c, k, combine) == LeavesOf(hs, k, combine) + [Root(c, combine)]
    ensures |c| == k ==> Whole(|hs + c|, k)
  {
    if hs == [] {
      assert hs + c == c;
    } else {
      LeavesAppend(hs[k..], c, k, combine);
      assert (hs + c)[..k] == hs[..k] && (hs + c)[k..] == hs[k..] + c;
      if |hs| == k { assert hs[..k] == hs; }
    }
  }

  lemma {:induction false} CutTwice<H>(hs: seq<H>, k: nat, n: nat)
    requires k <= n <= |hs|
    ensures hs[k..][..n - k] == hs[..n][k..] && hs[k..][n - k..] == hs[n..] && hs[..n][..k] == hs[..k]
  {}

  /** The first group and the others. */
  lemma {:induction false} LeavesFirst<H>(hs: seq<H>, k: nat, combine: (H, H) -> H)
    requires 0 < k < |hs|
    ensures LeavesOf(hs, k, combine) == [Root(hs[..k], combine)] + LeavesOf(hs[k..], k, combine)
  {}

  /** n is m times k. */
  predicate Times(n: int, m: nat, k: nat)
    decreases m
  {
    if m == 0 then n == 0 else Times(n - k, m - 1, k)
  }

  lemma {:induction false} ProductTimes(m: nat, k: nat)
    ensures Times(m * k, m, k)
  {
    if m > 0 {
      Distribute(k, m, 1);
      ProductTimes(m - 1, k);
    }
  }

  lemma {:induction false} TimesAtLeast(n: int, m: nat, k: nat)
    requires Times(n, m, k)
    ensures m >= 1 ==> n >= k
    decreases m
  {
    if m > 1 { TimesAtLeast(n - k, m - 1, k); }
  }

  lemma {:induction false} LeavesCut<H>(hs: seq<H>, m: nat, n: nat, k: nat, combine: (H, H) -> H)
    requires k > 0 && m >= 1 && Times(n, m, k) && n < |hs|
    ensures m < |LeavesOf(hs, k, combine)|
    ensures LeavesOf(hs, k, combine)[..m] == LeavesOf(hs[..n], k, combine)
    ensures LeavesOf(hs, k, combine)[m..] == LeavesOf(hs[n..], k, combine)
  {
    TimesAtLeast(n, m, k);
    if m == 1 {
      assert n == k;
    } else {
      TimesAtLeast(n - k, m - 1, k);
      hide LeavesOf, Root;
      LeavesFirst(hs, k, combine);
      LeavesFirst(hs[..n], k, combine);
      CutTwice(hs, k, n);
      LeavesCut(hs[k..], m - 1, n - k, k, combine);
    }
  }

  /** Cutting the base hashes behind m groups cuts the leaves behind m leaves. */
  lemma {:induction false} LeavesSplit<H>(hs: seq<H>, m: nat, k: nat, combine: (H, H) -> H)
    requires k > 0 && m >= 1 && m * k < |hs|
    ensures m < |LeavesOf(hs, k, combine)|
    ensures LeavesOf(hs, k, combine)[..m] == LeavesOf(hs[..m * k], k, combine)
    ensures LeavesOf(hs, k, combine)[m..] == LeavesOf(hs[m * k..], k, combine)
  {
    hide LeavesOf;
    ProductTimes(m, k);
    LeavesCut(hs, m, m * k, k, combine);
  }

  /** The number of leaves is what calcBlocks says. */
  lemma {:induction false} LeafCount<H>(hs: seq<H>, c: nat, k: nat, combine: (H, H) -> H)
    requires k > 0 && c >= 1 && (c - 1) * k < |hs| <= c * k
    ensures |LeavesOf(hs, k, combine)| == c
  {
    Distribute(k, c, 1);
    if c > 1 {
      ProductAtLeast(k, c - 1);
      Distribute(k, c - 1, 1);
      LeafCount(hs[k..], c - 1, k, combine);
    } else {
      assert |hs| <= k;
    }
  }

  // ---------------------------------------------------------------- the root from the leaves

  /** getHash's inner loop, counted in leaves: double while two halves still fit. */
  function GrowLeaves(m: nat, blockSize: nat, length: nat): (r: nat)
    requires m >= 1 && blockSize >= 1 && m * blockSize < length && IsPow2(m)
    ensures r >= 1 && IsPow2(r) && r * blockSize < length <= 2 * (r * blockSize)
    decreases length - m * blockSize
  {
    assert 2 * m * blockSize == 2 * (m * blockSize);
    if 2 * m * blockSize < length then
      Doubled(m); ProductAtLeast(blockSize, m);
      GrowLeaves(2 * m, blockSize, length)
    else m
  }

  lemma {:induction false} FewerLeaves(m: nat, n: nat, blockSize: nat, length: nat)
    requires m * blockSize < length <= n * blockSize
    ensures m < n
    ensures length - m * blockSize <= (n - m) * blockSize
  {
    Distribute(blockSize, n, m);
    if m >= n {
      Distribute(blockSize, m, n);
    }
  }

  /** getHash over the leaves that start at the given position and cover `length` bytes. */
  function GetHash<H>(leaves: seq<H>, blockSize: nat, length: nat, combine: (H, H) -> H): H
    requires blockSize >= 1 && leaves != [] && length <= |leaves| * blockSize
    decreases |leaves|
  {
    if length <= blockSize then leaves[0]
    else
      assert 1 * blockSize == blockSize;
      var m := GrowLeaves(1, blockSize, length);
      FewerLeaves(m, |leaves|, blockSize, length);
      combine(GetHash(leaves[..m], blockSize, m * blockSize, combine),
              GetHash(leaves[m..], blockSize, length - m * blockSize, combine))
  }

  /** `length` bytes make n base blocks. */
  predicate Covers(length: nat, n: nat) {
    n == Blocks(length, BASE)
  }

  lemma {:induction false} Assoc(m: int, k: int)
    ensures m * (k * BASE) == (m * k) * BASE
  {}

  lemma {:induction false} BlocksBounds(length: nat, bs: nat)
    requires bs > 0
    ensures var c := Blocks(length, bs); length <= c * bs && (c == 1 || (c - 1) * bs < length)
  {
    var x := length + bs - 1;
    var q, r := x / bs, x % bs;
    assert x == bs * q + r;
    if q >= 1 { Distribute(bs, q, 1); }
  }

  /** n base blocks make c groups of k. */
  lemma {:induction false} GroupCount(length: nat, k: nat, n: nat, c: nat)
    requires k > 0 && Covers(length, n) && c == Blocks(length, k * BASE)
    ensures (c - 1) * k < n <= c * k
  {
    BlocksBounds(length, k * BASE);
    Assoc(c, k);
    Assoc(c - 1, k);
    if c == 1 { assert 0 * k == 0; }
  }

  lemma {:induction false} LeafBytes<H>(hs: seq<H>, k: nat, length: nat, combine: (H, H) -> H)
    requires k > 0 && hs != [] && Covers(length, |hs|)
    ensures LeavesOf(hs, k, combine) != []
    ensures length <= |LeavesOf(hs, k, combine)| * (k * BASE)
    ensures |LeavesOf(hs, k, combine)| == Blocks(length, k * BASE)
  {
    var c := Blocks(length, k * BASE);
    BlocksBounds(length, k * BASE);
    GroupCount(length, k, |hs|, c);
    LeafCount(hs, c, k, combine);
  }

  /** Where getHash halves the bytes, the base blocks are split at the largest power of two. */
  lemma {:induction false} HalfCovers(length: nat, k: nat, n: nat, m: nat)
    requires IsPow2(k) && IsPow2(m) && Covers(length, n)
    requires m * (k * BASE) < length <= 2 * (m * (k * BASE))
    ensures IsPow2(m * k) && m * k < n <= 2 * (m * k)
    ensures Covers(m * (k * BASE), m * k) && Covers(length - m * (k * BASE), n - m * k)
  {
    Pow2Product(m, k);
    Assoc(m, k);
  }

  /** Computing the root from the leaves of any block size gives the root over the base blocks. */
  lemma {:induction false} LeavesGiveRoot<H>(hs: seq<H>, k: nat, length: nat, combine: (H, H) -> H)
    requires IsPow2(k) && hs != [] && Covers(length, |hs|)
    ensures LeavesOf(hs, k, combine) != [] && length <= |LeavesOf(hs, k, combine)| * (k * BASE)
    ensures GetHash(LeavesOf(hs, k, combine), k * BASE, length, combine) == Root(hs, combine)
    decreases |hs|, 1
  {
    LeafBytes(hs, k, length, combine);
    var bs := k * BASE;
    if length > bs {
      assert 1 * bs == bs;
      var m := GrowLeaves(1, bs, length);
      HalfCovers(length, k, |hs|, m);
      LeavesGiveRootSplit(hs, k, length, m, combine);
    } else {
      assert |hs| <= k;
    }
  }

  lemma {:induction false} LeavesGiveRootSplit<H>(hs: seq<H>, k: nat, length: nat, m: nat, combine: (H, H) -> H)
    requires IsPow2(k) && |hs| >= 2 && k * BASE < length
    requires 1 * (k * BASE) < length && m == GrowLeaves(1, k * BASE, length)
    requires m * k < |hs| <= 2 * (m * k) && IsPow2(m * k)
    requires Covers(m * (k * BASE), m * k) && Covers(length - m * (k * BASE), |hs| - m * k)
    requires LeavesOf(hs, k, combine) != [] && length <= |LeavesOf(hs, k, combine)| * (k * BASE)
    ensures GetHash(LeavesOf(hs, k, combine), k * BASE, length, combine) == Root(hs, combine)
    decreases |hs|, 0
  {
    var bs, l := k * BASE, m * k;
    var ls := LeavesOf(hs, k, combine);
    assert bs >= 1;
    hide Root, GetHash, LeavesOf, IsPow2, Blocks;
    LeavesSplit(hs, m, k, combine);
    LeavesGiveRoot(hs[..l], k, m * bs, combine);
    LeavesGiveRoot(hs[l..], k, length - m * bs, combine);
    GetHashHalves(ls, bs, length, m, combine);
    RootHalves(hs, l, combine);
  }

  /** The root computed from stored leaves does not depend on the block size they were made for. */
  lemma {:induction false} BlockSizeIrrelevant<H>(data: seq<Byte>, j: nat, k: nat, leafHash: seq<Byte> -> H,
      combine: (H, H) -> H)
    requires IsPow2(j) && IsPow2(k)
    ensures var hs := BaseHashes(data, leafHash);
      var a, b := LeavesOf(hs, j, combine), LeavesOf(hs, k, combine);
      && a != [] && |data| <= |a| * (j * BASE) && b != [] && |data| <= |b| * (k * BASE)
      && GetHash(a, j * BASE, |data|, combine) == GetHash(b, k * BASE, |data|, combine)
  {
    var hs := BaseHashes(data, leafHash);
    LeavesGiveRoot(hs, j, |data|, combine);
    LeavesGiveRoot(hs, k, |data|, combine);
  }

  lemma {:induction false} RootHalves<H>(s: seq<H>, l: nat, combine: (H, H) -> H)
    requires IsPow2(l) && l < |s| <= 2 * l
    ensures Root(s, combine) == combine(Root(s[..l], combine), Root(s[l..], combine))
  {
    SplitUnique(l, |s|);
  }

  lemma {:induction false} GetHashHalves<H>(leaves: seq<H>, blockSize: nat, length: nat, m: nat, combine: (H, H) -> H)
    requires blockSize >= 1 && leaves != [] && blockSize < length <= |leaves| * blockSize
    requires 1 * blockSize < length && m == GrowLeaves(1, blockSize, length) && m < |leaves|
    requires length - m * blockSize <= |leaves[m..]| * blockSize
    ensures m * blockSize <= |leaves[..m]| * blockSize
    ensures GetHash(leaves, blockSize, length, combine) ==
      combine(GetHash(leaves[..m], blockSize, m * blockSize, combine),
              GetHash(leaves[m..], blockSize, length - m * blockSize, combine))
  {
    hide IsPow2;
    assert |leaves[..m]| == m;
  }

  // ---------------------------------------------------------------- an empty piece fed first

  /** What is hashed when data was fed; early: an empty piece came first and made a block of its own. */
  function Hashed<H>(early: bool, data: seq<Byte>, leafHash: seq<Byte> -> H): (r: seq<H>)
    ensures r != []
  {
    if early && data != [] then [leafHash([])] + BaseHashes(data, leafHash) else BaseHashes(data, leafHash)
  }

  lemma {:induction false} OneMore(n: int, c: int, k: int)
    requires n - k <= c * k
    ensures n <= (c + 1) * k
  {}

  lemma {:induction false} EnoughLeaves<H>(hs: seq<H>, k: nat, combine: (H, H) -> H)
    requires k > 0
    ensures |hs| <= |LeavesOf(hs, k, combine)| * k
  {
    if |hs| > k {
      hide LeavesOf, Root;
      LeavesFirst(hs, k, combine);
      EnoughLeaves(hs[k..], k, combine);
      OneMore(|hs|, |LeavesOf(hs[k..], k, combine)|, k);
    } else if hs != [] {
      assert LeavesOf(hs, k, combine) == [Root(hs, combine)];
      OneMore(|hs|, 0, k);
    }
  }

  lemma {:induction false} EnoughBytes<H>(hs: seq<H>, k: nat, length: nat, combine: (H, H) -> H)
    requires k > 0 && Blocks(length, BASE) <= |hs|
    ensures length <= |LeavesOf(hs, k, combine)| * (k * BASE)
  {
    var n := |LeavesOf(hs, k, combine)|;
    EnoughLeaves(hs, k, combine);
    BlocksBounds(length, BASE);
    Assoc(n, k);
    hide LeavesOf, Blocks;
  }

  /** The root that comes out of the leaves. */
  function StreamRoot<H>(early: bool, data: seq<Byte>, k: nat, leafHash: seq<Byte> -> H, combine: (H, H) -> H): H
    requires k > 0
  {
    var hs := Hashed(early, data, leafHash);
    EnoughBytes(hs, k, |data|, combine);
    GetHash(LeavesOf(hs, k, combine), k * BASE, |data|, combine)
  }

  /** Without such a piece it is the root of the data. */
  lemma {:induction false} StreamRootRight<H>(early: bool, data: seq<Byte>, k: nat, leafHash: seq<Byte> -> H,
      combine: (H, H) -> H)
    requires IsPow2(k) && k > 0 && !(early && data != [])
    ensures StreamRoot(early, data, k, leafHash, combine) == DataRoot(data, leafHash, combine)
  {
    hide IsPow2, LeavesOf, GetHash, Root, BaseHashes;
    LeavesGiveRoot(BaseHashes(data, leafHash), k, |data|, combine);
  }

  /** Hashes that tell everything apart that is hashed. */
  ghost predicate Collisionless<H(!new)>(leafHash: seq<Byte> -> H, combine: (H, H) -> H) {
    && (forall a, b :: leafHash(a) == leafHash(b) ==> a == b)
    && (forall a, b, c, d :: combine(a, b) == combine(c, d) ==> a == c && b == d)
    && forall a, b, c :: combine(a, b) != leafHash(c)
  }

  /** v is made of b by n steps in which it is the left part. */
  ghost predicate LeftOf<H(!new)>(v: H, b: H, n: nat, combine: (H, H) -> H) {
    if n == 0 then v == b else exists w, u :: v == combine(w, u) && LeftOf(w, b, n - 1, combine)
  }

  lemma {:induction false} LeftTwice<H(!new)>(v: H, b: H, c: H, m: nat, n: nat, combine: (H, H) -> H)
    requires LeftOf(v, b, m, combine) && LeftOf(b, c, n, combine)
    ensures LeftOf(v, c, m + n, combine)
    decreases m
  {
    if m > 0 {
      var w, u :| v == combine(w, u) && LeftOf(w, b, m - 1, combine);
      LeftTwice(w, b, c, m - 1, n, combine);
    }
  }

  lemma {:induction false} RootLeft<H(!new)>(s: seq<H>, combine: (H, H) -> H) returns (n: nat)
    requires s != []
    ensures LeftOf(Root(s, combine), s[0], n, combine)
    decreases |s|
  {
    if |s| == 1 {
      n := 0;
    } else {
      var k := Split(|s|);
      AtLeastOne(k);
      n := RootLeft(s[..k], combine);
      n := n + 1;
    }
  }

  lemma {:induction false} GetHashLeft<H(!new)>(leaves: seq<H>, blockSize: nat, length: nat,
      combine: (H, H) -> H) returns (n: nat)
    requires blockSize >= 1 && leaves != [] && length <= |leaves| * blockSize
    ensures LeftOf(GetHash(leaves, blockSize, length, combine), leaves[0], n, combine)
    decreases |leaves|
  {
    if length <= blockSize {
      n := 0;
    } else {
      assert 1 * blockSize == blockSize;
      var m := GrowLeaves(1, blockSize, length);
      FewerLeaves(m, |leaves|, blockSize, length);
      n := GetHashLeft(leaves[..m], blockSize, m * blockSize, combine);
      n := n + 1;
    }
  }

  lemma {:induction false} LeftmostSame<H(!new)>(v: H, a: seq<Byte>, m: nat, b: seq<Byte>, n: nat,
      leafHash: seq<Byte> -> H, combine: (H, H) -> H)
    requires Collisionless(leafHash, combine) && LeftOf(v, leafHash(a), m, combine) &&
      LeftOf(v, leafHash(b), n, combine)
    ensures a == b
    decreases m
  {
    if m > 0 && n > 0 {
      var w, u :| v == combine(w, u) && LeftOf(w, leafHash(a), m - 1, combine);
      var x, y :| v == combine(x, y) && LeftOf(x, leafHash(b), n - 1, combine);
      LeftmostSame(w, a, m - 1, b, n - 1, leafHash, combine);
    }
  }

  lemma {:induction false} FirstLeaf<H>(hs: seq<H>, k: nat, combine: (H, H) -> H)
    requires k > 0 && hs != []
    ensures var c := if |hs| <= k then hs else hs[..k];
      LeavesOf(hs, k, combine) != [] && c[0] == hs[0] && LeavesOf(hs, k, combine)[0] == Root(c, combine)
  {}

  /** The streamed root is that of the data exactly if no empty piece was fed in front of it. */
  lemma {:induction false} StreamRootExactly<H(!new)>(early: bool, data: seq<Byte>, k: nat, leafHash: seq<Byte> -> H,
      combine: (H, H) -> H)
    requires Collisionless(leafHash, combine) && IsPow2(k) && k > 0
    ensures StreamRoot(early, data, k, leafHash, combine) == DataRoot(data, leafHash, combine) <==> !early || data == []
  {
    if !early || data == [] {
      StreamRootRight(early, data, k, leafHash, combine);
    } else {
      var hs, base := Hashed(early, data, leafHash), BaseHashes(data, leafHash);
      var first := if |data| <= BASE then data else data[..BASE];
      assert hs[0] == leafHash([]) && base[0] == leafHash(first);
      EnoughBytes(hs, k, |data|, combine);
      FirstLeaf(hs, k, combine);
      var leaves := LeavesOf(hs, k, combine);
      hide Root, GetHash, LeavesOf, BaseHashes, Hashed, Blocks, LeftOf, Collisionless, IsPow2;
      var group := if |hs| <= k then hs else hs[..k];
      var m := GetHashLeft(leaves, k * BASE, |data|, combine);
      var n := RootLeft(group, combine);
      LeftTwice(StreamRoot(early, data, k, leafHash, combine), leaves[0], leafHash([]), m, n, combine);
      var i := RootLeft(base, combine);
      if StreamRoot(early, data, k, leafHash, combine) == DataRoot(data, leafHash, combine) {
        LeftmostSame(DataRoot(data, leafHash, combine), [], m + n, first, i, leafHash, combine);
      }
    }
  }

  /** Hashes as terms have no collisions. */
  datatype Term = Leaf(data: seq<Byte>) | Join(left: Term, right: Term)

  /** So there are hashes with which any data after an empty piece gets a wrong root. */
  lemma {:induction false} EarlyPieceMisread(data: seq<Byte>, k: nat)
    requires data != [] && IsPow2(k) && k > 0
    ensures var leafHash, combine := (b: seq<Byte>) => Leaf(b), (l: Term, r: Term) => Join(l, r);
      && Collisionless(leafHash, combine)
      && StreamRoot(true, data, k, leafHash, combine) != DataRoot(data, leafHash, combine)
  {
    var leafHash, combine := (b: seq<Byte>) => Leaf(b), (l: Term, r: Term) => Join(l, r);
    assert Collisionless(leafHash, combine);
    StreamRootExactly(true, data, k, leafHash, combine);
  }

  /** With one base block per leaf, any data of one block gets the root of no data at all. */
  lemma {:induction false} EarlyBlockHidesData<H>(data: seq<Byte>, leafHash: seq<Byte> -> H, combine: (H, H) -> H)
    requires 0 < |data| <= BASE
    ensures LeavesOf(Hashed(true, data, leafHash), 1, combine) == [leafHash([]), leafHash(data)]
    ensures StreamRoot(true, data, 1, leafHash, combine) == leafHash([])
  {
    var hs := Hashed(true, data, leafHash);
    assert hs == [leafHash([]), leafHash(data)] && hs[1..] == [leafHash(data)] && hs[..1] == [leafHash([])];
    LeavesFirst(hs, 1, combine);
    assert LeavesOf(hs[1..], 1, combine) == [leafHash(data)];
  }

  // ---------------------------------------------------------------- the streaming tree

  /** What the pending blocks stand for: the base hashes below each of them, newest on top. */
  datatype Stack<H> = Empty | Push(below: Stack<H>, seg: seq<H>) {
    ghost function Flat(): seq<H> {
      if Empty? then [] else below.Flat() + seg
    }

    /** Every pending block is the root of its base hashes, with its size in bytes. */
    ghost predicate Shows(blocks: seq<(H, int)>, combine: (H, H) -> H) {
      if Empty? then blocks == []
      else
        && blocks != [] && seg != []
        && blocks[|blocks| - 1] == (Root(seg, combine), |seg| * BASE)
        && below.Shows(blocks[..|blocks| - 1], combine)
    }

    /** A binary counter: strictly decreasing powers of two below k. */
    ghost predicate Counter(k: nat) {
      Push? ==> below.Counter(k) && Top(k) && (below.Push? ==> |seg| < |below.seg|)
    }

    ghost predicate Top(k: nat) {
      Push? && IsPow2(|seg|) && |seg| < k
    }

    /** Folding from the newest block on: the last one stands for `t`, which is smaller than the
        block before it. */
    ghost predicate Folding(blocks: seq<(H, int)>, t: seq<H>, k: nat, combine: (H, H) -> H) {
      && Push? && below.Counter(k) && (below.Push? ==> |t| < |below.seg|)
      && 1 <= |t| < k && blocks != [] && blocks[|blocks| - 1].0 == Root(t, combine)
      && below.Shows(blocks[..|blocks| - 1], combine)
    }

    /** A counter whose newest digit still has to be carried. */
    ghost predicate Carrying(k: nat) {
      Top(k) && below.Counter(k) && (below.Push? ==> |seg| <= |below.seg|)
    }
  }

  class Tree<H(0)> {
    const leafHash: seq<Byte> -> H
    const combine: (H, H) -> H
    const blockSize: nat
    var blocks: seq<(H, int)>
    var leaves: seq<H>
    var root: H
    var fileSize: nat
    ghost const k: nat         // base blocks per leaf
    ghost var data: seq<Byte>  // everything fed so far
    ghost var early: bool      // an empty piece was fed first
    ghost var done: seq<H>     // its base hashes: those in leaves ...
    ghost var pend: Stack<H>   // ... and those in pending blocks

    /** The leaves and the pending blocks together hold exactly the base hashes fed so far. */
    ghost predicate Valid()
      reads this
    {
      && Holds()
      && fileSize == |data|
      && Fed() == (if Untouched() then [] else Hashed(early, data, leafHash))
      && (if Untouched() then data == [] && !early else data == [] ==> early)
    }

    ghost function Fed(): seq<H>
      reads this
    {
      done + pend.Flat()
    }

    ghost predicate Untouched()
      reads this
    {
      leaves == [] && blocks == []
    }

    ghost predicate LeavesHold()
      reads this
    {
      IsPow2(k) && blockSize == k * BASE && Whole(|done|, k) && leaves == LeavesOf(done, k, combine)
    }

    ghost predicate Holds()
      reads this
    {
      LeavesHold() && pend.Shows(blocks, combine) && pend.Counter(k)
    }

    /** A tree for a block size that is 1024 times a power of two. */
    constructor (leafHash: seq<Byte> -> H, combine: (H, H) -> H, blockSize: nat, ghost k: nat)
      requires IsPow2(k) && blockSize == k * BASE
      ensures Valid() && data == [] && Untouched()
      ensures this.leafHash == leafHash && this.combine == combine && this.blockSize == blockSize
    {
      this.leafHash, this.combine, this.blockSize, this.k := leafHash, combine, blockSize, k;
      blocks, leaves, fileSize, data, early, done, pend := [], [], 0, [], false, [], Empty;
    }

    /** Two equal neighbours become one block; a block of the full size becomes a leaf. */
    method ReduceBlocks()
      requires LeavesHold() && pend.Shows(blocks, combine) && pend.Carrying(k)
      modifies this`blocks, this`leaves, this`done, this`pend
      ensures Holds() && !Untouched() && Fed() == old(Fed())
    {
      hide Root, IsPow2, LeavesOf, Whole;
      while |blocks| > 1 && blocks[|blocks| - 2].1 == blocks[|blocks| - 1].1
        invariant LeavesHold() && pend.Shows(blocks, combine) && pend.Carrying(k)
        invariant Fed() == old(Fed())
        decreases |blocks|
      {
        var last := |blocks| - 1;
        var a, b := blocks[last - 1], blocks[last];
        ghost var u, v, rest := pend.seg, pend.below.seg, pend.below.below;
        CarryStep(pend, blocks, k, combine);
        if a.1 * 2 == blockSize {
          leaves := leaves + [combine(a.0, b.0)];
          blocks := blocks[..last - 1];
          LeavesAppend(done, v + u, k, combine);
          done, pend := done + (v + u), Empty;
          return;
        }
        blocks := blocks[..last - 1] + [(combine(a.0, b.0), a.1 * 2)];
        pend := Push(rest, v + u);
      }
    }

    /** Hash one more base block. */
    method AddBlock(h: H)
      requires Holds()
      modifies this`blocks, this`leaves, this`done, this`pend
      ensures Holds() && !Untouched() && Fed() == old(Fed()) + [h]
    {
      if BASE < blockSize {
        blocks := blocks + [(h, BASE)];
        pend := Push(pend, [h]);
        PushSmallest(pend, blocks, k, combine);
        assert Fed() == old(Fed()) + [h];
        ReduceBlocks();
      } else {
        assert pend.Empty?;
        LeavesAppend(done, [h], k, combine);
        leaves := leaves + [h];
        done := done + [h];
      }
    }

    /** Feed data; its length is a multiple of the base block unless it is the last piece.  An
        empty piece counts only if nothing was fed before; then it makes a block. */
    method Update(piece: seq<Byte>)
      requires Valid() && (piece != [] ==> fileSize % BASE == 0)
      modifies this`blocks, this`leaves, this`done, this`pend, this`fileSize, this`data, this`early
      ensures Valid() && data == old(data) + piece && !Untouched()
      ensures early == if old(Untouched()) then piece == [] else old(early)
    {
      hide Root, IsPow2, LeavesOf, Whole, BaseHashes, Stack.Shows, Stack.Counter, Stack.Flat;
      if piece == [] && !(leaves == [] && blocks == []) {
        assert data + piece == data;
        return;
      }
      HashedMore(Untouched(), early, data, piece, leafHash);
      if Untouched() { early := piece == []; }
      AddBlocks(piece);
      fileSize := fileSize + |piece|;
      data := data + piece;
    }

    /** Cut the data into base blocks and add each of them; empty data makes one block. */
    method AddBlocks(piece: seq<Byte>)
      requires Holds()
      modifies this`blocks, this`leaves, this`done, this`pend
      ensures Holds() && !Untouched() && Fed() == old(Fed()) + BaseHashes(piece, leafHash)
    {
      hide Root, IsPow2, LeavesOf, Whole, BaseHashes, Remaining, Stack.Shows, Stack.Counter, Stack.Flat;
      ghost var todo := BaseHashes(piece, leafHash);
      var i, first := 0, true;  // a do-while loop
      RemainingEnds(piece, leafHash);
      while first || i < |piece|
        invariant 0 <= i <= |piece| && (first ==> i == 0) && Holds() && (first || !Untouched())
        invariant todo == Remaining(piece, i, first, leafHash)
        invariant Fed() + todo == old(Fed()) + BaseHashes(piece, leafHash)
        decreases |piece| - i, first
      {
        var n := if BASE < |piece| - i then BASE else |piece| - i;
        RemainingStep(piece, i, n, first, leafHash);
        ghost var fed := Fed();
        AddBlock(leafHash(piece[i..i + n]));
        i, first := i + n, false;
        assert fed + todo == (fed + [todo[0]]) + todo[1..];
        todo := todo[1..];
      }
    }

    /** Fold the pending blocks into the last leaf and compute the root from the leaves.  It is the
        root of the data, unless an empty piece was fed in front of it. */
    method Finalize() returns (r: H)
      requires Valid()
      modifies this
      ensures k > 0 && r == root == StreamRoot(old(early), data, k, leafHash, combine)
      ensures !old(early) || data == [] ==>
        r == DataRoot(data, leafHash, combine) && |leaves| == Blocks(fileSize, blockSize)
      ensures data == old(data) && fileSize == |data|
      ensures leaves == LeavesOf(Hashed(old(early), data, leafHash), k, combine)
      ensures leaves != [] && fileSize <= |leaves| * blockSize && root == GetHash(leaves, blockSize, fileSize, combine)
    {
      assert k > 0;
      hide Root, IsPow2, LeavesOf, Whole, BaseHashes, GetHash, Blocks, Stack.Counter, Stack.Shows, Stack.Flat, Hashed;
      NothingHashed(early, leafHash);
      if leaves == [] && blocks == [] {
        Update([]);
        assert data == old(data);
      }
      HashedEnough(early, data, leafHash);
      FoldBlocks();
      CalcRoot(Hashed(old(early), data, leafHash));
      if !old(early) || data == [] {
        StreamRootRight(old(early), data, k, leafHash, combine);
        LeafBytes(Hashed(old(early), data, leafHash), k, fileSize, combine);
      }
      r := root;
    }

    /** All pending blocks become the last leaf. */
    method FoldBlocks()
      requires Holds()
      modifies this`blocks, this`leaves
      ensures leaves == LeavesOf(old(Fed()), k, combine)
    {
      hide Root, IsPow2, LeavesOf, Whole, Stack.Counter;
      ghost var hs, st := Fed(), pend;
      ghost var t := if st.Push? then st.seg else [];
      FoldStart(st, blocks, k, combine);
      while |blocks| > 1
        invariant LeavesHold()
        invariant blocks != [] ==> st.Folding(blocks, t, k, combine) && hs == done + (st.below.Flat() + t)
        invariant blocks == [] ==> hs == done
      {
        var last := |blocks| - 1;
        FoldStep(st, blocks, t, k, combine);
        blocks := blocks[..last - 1] + [(combine(blocks[last - 1].0, blocks[last].0), blocks[last - 1].1)];
        t, st := st.below.seg + t, st.below;
      }
      if |blocks| > 0 {
        assert st.below.Flat() + t == t by { assert st.below.Empty?; }
        LeavesAppend(done, t, k, combine);
        leaves := leaves + [blocks[0].0];
      }
    }

    /** The root from the leaves. */
    method CalcRoot(ghost hs: seq<H>)
      requires k > 0 && blockSize == k * BASE && hs != []
      requires leaves == LeavesOf(hs, k, combine) && Blocks(fileSize, BASE) <= |hs|
      modifies this`root
      ensures leaves != [] && fileSize <= |leaves| * blockSize
      ensures root == GetHash(leaves, blockSize, fileSize, combine)
    {
      assert blockSize >= 1;
      hide *;
      EnoughBytes(hs, k, fileSize, combine);
      root := GetHash(leaves, blockSize, fileSize, combine);
    }
  }

  lemma {:induction false} HashedMore<H>(untouched: bool, early: bool, data: seq<Byte>, piece: seq<Byte>,
      leafHash: seq<Byte> -> H)
    requires if untouched then data == [] && !early else |data| % BASE == 0 && piece != [] && (data == [] ==> early)
    ensures untouched ==> Hashed(piece == [], data + piece, leafHash) == BaseHashes(piece, leafHash)
    ensures !untouched ==>
      Hashed(early, data + piece, leafHash) == Hashed(early, data, leafHash) + BaseHashes(piece, leafHash)
  {
    assert [] + piece == piece;
    if !untouched {
      if data == [] {
        assert BaseHashes(data, leafHash) == [leafHash([])];
      } else {
        BaseHashesAppend(data, piece, leafHash);
      }
      hide BaseHashes;
      if early && data != [] {
        assert [leafHash([])] + (BaseHashes(data, leafHash) + BaseHashes(piece, leafHash)) ==
          [leafHash([])] + BaseHashes(data, leafHash) + BaseHashes(piece, leafHash);
      }
    }
  }

  lemma {:induction false} HashedEnough<H>(early: bool, data: seq<Byte>, leafHash: seq<Byte> -> H)
    ensures Blocks(|data|, BASE) <= |Hashed(early, data, leafHash)|
    ensures !early || data == [] ==> Hashed(early, data, leafHash) == BaseHashes(data, leafHash)
  {
    hide Blocks;
  }

  /** No data at all: it does not matter whether an empty piece was fed. */
  lemma {:induction false} NothingHashed<H>(early: bool, leafHash: seq<Byte> -> H)
    ensures Hashed(early, [], leafHash) == Hashed(!early, [], leafHash)
  {}

  /** Carrying one digit of the counter: the doubled digit is full and alone, or fits in place. */
  lemma {:induction false} CarryDigit<H>(st: Stack<H>, k: nat)
    requires IsPow2(k) && st.Carrying(k) && st.below.Push? && |st.seg| == |st.below.seg|
    ensures IsPow2(|st.below.seg|) && 1 <= |st.seg|
    ensures 2 * |st.seg| == k ==> st.below.below.Empty?
    ensures 2 * |st.seg| != k ==> Push(st.below.below, st.below.seg + st.seg).Carrying(k)
  {
    hide Root, IsPow2;
    var n, rest := |st.seg|, st.below.below;
    assert n >= 1 by { AtLeastOne(n); }
    Doubled(n);
    Pow2Gap(n, k);
    assert rest.Counter(k);
    if rest.Push? { Pow2Gap(n, |rest.seg|); }
  }

  /** The newest block, and the one before it, with what they stand for. */
  lemma {:induction false} TopOne<H>(st: Stack<H>, blocks: seq<(H, int)>, combine: (H, H) -> H)
    requires st.Shows(blocks, combine) && blocks != []
    ensures st.Push? && st.seg != [] && blocks[|blocks| - 1] == (Root(st.seg, combine), |st.seg| * BASE)
    ensures st.below.Shows(blocks[..|blocks| - 1], combine)
  {
    hide Root;
  }

  lemma {:induction false} TopTwo<H>(st: Stack<H>, blocks: seq<(H, int)>, combine: (H, H) -> H)
    requires st.Push? && |blocks| > 1 && st.below.Shows(blocks[..|blocks| - 1], combine)
    ensures st.below.Push? && st.below.seg != []
    ensures blocks[|blocks| - 2] == (Root(st.below.seg, combine), |st.below.seg| * BASE)
    ensures st.below.below.Shows(blocks[..|blocks| - 2], combine)
  {
    hide Root;
    var init := blocks[..|blocks| - 1];
    assert st.below.Shows(init, combine) && init[|init| - 1] == blocks[|blocks| - 2];
    assert init[..|init| - 1] == blocks[..|blocks| - 2];
  }

  lemma {:induction false} ShowsPush<H>(st: Stack<H>, blocks: seq<(H, int)>, seg: seq<H>, size: int,
      combine: (H, H) -> H)
    requires st.Shows(blocks, combine) && seg != [] && size == |seg| * BASE
    ensures Push(st, seg).Shows(blocks + [(Root(seg, combine), size)], combine)
  {
    hide Root;
    var next := blocks + [(Root(seg, combine), size)];
    assert next[..|next| - 1] == blocks;
  }

  /** Joining two equal neighbours: they fill a leaf and are the whole stack, or they make one
      block that is not larger than the one before. */
  lemma {:induction false} CarryStep<H>(st: Stack<H>, blocks: seq<(H, int)>, k: nat, combine: (H, H) -> H)
    requires IsPow2(k) && st.Shows(blocks, combine) && st.Carrying(k)
    requires |blocks| > 1 && blocks[|blocks| - 2].1 == blocks[|blocks| - 1].1
    ensures st.below.Push?
    ensures var u, v, rest := st.seg, st.below.seg, st.below.below;
      var last := |blocks| - 1;
      var joined := combine(blocks[last - 1].0, blocks[last].0);
      && |u| == |v| && joined == Root(v + u, combine) && st.Flat() == rest.Flat() + (v + u)
      && blocks[last - 1].1 == |v| * BASE && rest.Shows(blocks[..last - 1], combine)
      && (2 * |v| == k ==> rest.Empty?)
      && (2 * |v| != k ==>
            && Push(rest, v + u).Carrying(k)
            && Push(rest, v + u).Shows(blocks[..last - 1] + [(joined, blocks[last - 1].1 * 2)], combine))
  {
    hide Root, IsPow2, Stack.Shows, Stack.Counter, Stack.Carrying, Stack.Top;
    TopOne(st, blocks, combine);
    TopTwo(st, blocks, combine);
    CarryDigit(st, k);
    var u, v, rest, last := st.seg, st.below.seg, st.below.below, |blocks| - 1;
    RootJoin(v, u, combine);
    ShowsPush(rest, blocks[..last - 1], v + u, blocks[last - 1].1 * 2, combine);
    assert st.Flat() == rest.Flat() + (v + u);
  }

  lemma {:induction false} FoldStart<H>(st: Stack<H>, blocks: seq<(H, int)>, k: nat, combine: (H, H) -> H)
    requires st.Shows(blocks, combine) && st.Counter(k)
    ensures st.Empty? ==> blocks == []
    ensures st.Push? ==> blocks != [] && st.Folding(blocks, st.seg, k, combine)
  {
    hide Root, IsPow2;
  }

  /** Folding one block into the one before it. */
  lemma {:induction false} FoldStep<H>(st: Stack<H>, blocks: seq<(H, int)>, t: seq<H>, k: nat, combine: (H, H) -> H)
    requires IsPow2(k) && st.Folding(blocks, t, k, combine) && |blocks| > 1
    ensures st.below.Push?
    ensures var last := |blocks| - 1;
      st.below.Folding(blocks[..last - 1] + [(combine(blocks[last - 1].0, blocks[last].0), blocks[last - 1].1)],
                       st.below.seg + t, k, combine)
    ensures st.below.Flat() + t == st.below.below.Flat() + (st.below.seg + t)
  {
    hide Root, IsPow2;
    TopTwo(st, blocks, combine);
    var last, v, rest := |blocks| - 1, st.below.seg, st.below.below;
    RootJoin(v, t, combine);
    Pow2Gap(|v|, k);
    assert rest.Counter(k);
    if rest.Push? { Pow2Gap(|v|, |rest.seg|); }
    var next := blocks[..last - 1] + [(combine(blocks[last - 1].0, blocks[last].0), blocks[last - 1].1)];
    assert next[..|next| - 1] == blocks[..last - 1];
  }

  /** A single base block is the smallest digit. */
  lemma {:induction false} PushSmallest<H>(st: Stack<H>, blocks: seq<(H, int)>, k: nat, combine: (H, H) -> H)
    requires st.Push? && |st.seg| == 1 && 1 < k && st.below.Counter(k)
    requires blocks != [] && blocks[|blocks| - 1] == (st.seg[0], BASE) &&
      st.below.Shows(blocks[..|blocks| - 1], combine)
    ensures st.Shows(blocks, combine) && st.Carrying(k)
  {}
}
