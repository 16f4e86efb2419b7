/** The layout of the records of the hash store (hash/HashStore.cpp), byte by byte, and which records can
    be loaded. */
module HashRecords {
  import opened HashStore
  import opened MerkleTree
  import opened Options

  /** The eight bytes of an integer as the processor keeps it: the lowest first, negative numbers as
      their value plus 2 to the power of 64. */
  ghost predicate Holds(s: Bytes, v: int) {
    var u := if v < 0 then v + 0x1_0000_0000_0000_0000 else v;
    && |s| == 8
    && s[0] == u % 256
    && s[1] == u / 256 % 256
    && s[2] == u / 256 / 256 % 256
    && s[3] == u / 256 / 256 / 256 % 256
    && s[4] == u / 256 / 256 / 256 / 256 % 256
    && s[5] == u / 256 / 256 / 256 / 256 / 256 % 256
    && s[6] == u / 256 / 256 / 256 / 256 / 256 / 256 % 256
    && s[7] == u / 256 / 256 / 256 / 256 / 256 / 256 / 256 % 256
  }

  lemma {:induction false} LowestFirst(v: nat, n: nat)
    requires n > 0
    ensures LittleEndian(v, n)[0] == v % 256 && LittleEndian(v, n)[1..] == LittleEndian(v / 256, n - 1)
  {}

  lemma {:induction false} EightHold(v: nat)
    requires v < 0x1_0000_0000_0000_0000
    ensures Holds(LittleEndian(v, 8), v)
  {
    var s := LittleEndian(v, 8);
    Eight(v, v / 256, v / 256 / 256, v / 256 / 256 / 256);
    LowestFirst(v / 256 / 256 / 256 / 256, 4);
    LowestFirst(v / 256 / 256 / 256 / 256 / 256, 3);
    LowestFirst(v / 256 / 256 / 256 / 256 / 256 / 256, 2);
    LowestFirst(v / 256 / 256 / 256 / 256 / 256 / 256 / 256, 1);
    hide LittleEndian;
    var t := s[4..];
    assert t[1] == s[5] && t[2] == s[6] && t[3] == s[7];
    assert t[1..][0] == t[1] && t[1..][1..][0] == t[2] && t[1..][1..][1..][0] == t[3];
  }

  lemma {:induction false} Eight(v: nat, a: nat, b: nat, c: nat)
    requires a == v / 256 && b == a / 256 && c == b / 256
    ensures var s := LittleEndian(v, 8);
      s[0] == v % 256 && s[1] == a % 256 && s[2] == b % 256 && s[3] == c % 256 && s[4..] == LittleEndian(c / 256, 4)
  {
    LowestFirst(v, 8);
    LowestFirst(a, 7);
    LowestFirst(b, 6);
    LowestFirst(c, 5);
    hide LittleEndian;
    var s := LittleEndian(v, 8);
    assert s[1..][0] == s[1] && s[1..][1..][0] == s[2] && s[1..][1..][1..][0] == s[3];
    assert s[1..][1..][1..][1..] == s[4..];
  }

  lemma {:induction false} LittleEndianOfValue(s: Bytes)
    ensures LittleEndian(Value(s), |s|) == s
  {
    if s != [] {
      LittleEndianOfValue(s[1..]);
      assert s == [s[0]] + s[1..];
    }
  }

  lemma {:induction false} SignedHolds(v: int64)
    ensures Holds(PutInt64(v), v)
  {
    EightHold(if v < 0 then v + TWO64 else v);
    hide LittleEndian;
  }

  /** Reading the eight bytes gives the number they hold. */
  lemma {:induction false} ReadHolds(s: Bytes)
    requires |s| == 8
    ensures Holds(s, GetUint64(s)) && Holds(s, GetInt64(s))
  {
    LittleEndianOfValue(s);
    BoundedValue(s);
    EightHold(Value(s));
    hide LittleEndian, Value;
  }

  // ---------------------------------------------------------------- file entries

  /** The record of a file: the version, the time stamp, the 24 bytes of the root, the size. */
  lemma {:induction false} FileLayout(f: HashedFile)
    ensures var r := FileRecord(f);
      && |r| == 41 && r[0] == 1 && Holds(r[1..9], f.timeStamp) && r[9..33] == f.root && Holds(r[33..41], f.size)
  {
    var time, size := LittleEndian(f.timeStamp, 8), PutInt64(f.size);
    EightHold(f.timeStamp);
    SignedHolds(f.size);
    hide Holds, LittleEndian, PutInt64;
    FourParts([VERSION], time, f.root, size);
  }

  /** Records of this length and version are loaded, and no others; the entry is what the bytes hold. */
  lemma {:induction false} FileReadExactly(src: Bytes)
    ensures LoadFileInfo(src).Some? <==> |src| == 41 && src[0] <= 1
    ensures LoadFileInfo(src).Some? ==>
      var f := LoadFileInfo(src).value;
      Holds(src[1..9], f.timeStamp) && src[9..33] == f.root && Holds(src[33..41], f.size)
  {
    if |src| == 41 && src[0] <= 1 {
      ReadHolds(src[1..9]);
      ReadHolds(src[33..41]);
    }
    hide Holds, GetUint64, GetInt64;
  }

  // ---------------------------------------------------------------- tree entries

  /** The k-th 24 bytes behind the header. */
  function LeafAt(src: Bytes, k: nat): Bytes
    requires 17 + 24 * (k + 1) <= |src|
  {
    src[17 + 24 * k..17 + 24 * (k + 1)]
  }

  lemma {:induction false} ConcatAt(leaves: seq<Tth>, k: nat)
    requires k < |leaves|
    ensures Concat(leaves)[24 * k..24 * (k + 1)] == leaves[k]
  {
    var c, rest := Concat(leaves), Concat(leaves[1..]);
    assert c == leaves[0] + rest;
    if k > 0 {
      ConcatAt(leaves[1..], k - 1);
      assert c[24..] == rest;
      assert rest[24 * (k - 1)..24 * k] == c[24 * k..24 * (k + 1)];
    }
  }

  lemma {:induction false} LeavesAt(data: Bytes, n: nat, k: nat)
    requires |data| >= TTH_BYTES * n && k < n
    ensures Leaves(data, n)[k] == data[24 * k..24 * (k + 1)]
  {
    if k > 0 {
      LeavesAt(data[TTH_BYTES..], n - 1, k - 1);
      assert data[24..][24 * (k - 1)..24 * k] == data[24 * k..24 * (k + 1)];
    }
  }

  /** The record of a tree: the version, the two sizes, and the leaves if there are several. */
  lemma {:induction false} TreeLayout(t: TreeData)
    ensures var r, n := TreeRecord(t), if |t.leaves| == 1 then 0 else |t.leaves|;
      && |r| == 17 + 24 * n && r[0] == 1 && Holds(r[1..9], t.fileSize) && Holds(r[9..17], t.blockSize)
      && forall k :: 0 <= k < n ==> LeafAt(r, k) == t.leaves[k]
  {
    var r, fileSize, blockSize := TreeRecord(t), PutInt64(t.fileSize), PutInt64(t.blockSize);
    var leaves := if |t.leaves| == 1 then [] else Concat(t.leaves);
    SignedHolds(t.fileSize);
    SignedHolds(t.blockSize);
    hide Holds, PutInt64, Concat;
    FourParts([VERSION], fileSize, blockSize, leaves);
    assert r[1..9] == fileSize && r[9..17] == blockSize && r[17..] == leaves;
    forall k | |t.leaves| != 1 && 0 <= k < |t.leaves| ensures LeafAt(r, k) == t.leaves[k] {
      ConcatAt(t.leaves, k);
      assert LeafAt(r, k) == r[17..][24 * k..24 * (k + 1)];
    }
  }

  /** What is loaded of a record: nothing from one that is too short or too new; the bare root where there
      are no leaves; and otherwise the leaves that are there. */
  lemma {:induction false} TreeReadExactly(src: Bytes, key: Tth, combine: Combine)
    ensures |src| < 17 || src[0] > 1 ==> LoadTree(src, key, combine).Rejected?
    ensures |src| == 17 && src[0] <= 1 ==> LoadTree(src, key, combine).Loaded?
    ensures LoadTree(src, key, combine).Loaded? ==>
      var t := LoadTree(src, key, combine).tree;
      && |src| >= 17 && Holds(src[1..9], t.fileSize) && Holds(src[9..17], t.blockSize)
      && if |src| == 17 then t.leaves == [key]
         else |src| >= 17 + 24 * |t.leaves| && forall k :: 0 <= k < |t.leaves| ==> LeafAt(src, k) == t.leaves[k]
  {
    if |src| >= 17 {
      ReadHolds(src[1..9]);
      ReadHolds(src[9..17]);
    }
    hide Holds, GetInt64, Leaves, RootOf, Blocks, ValidSizes;
    if LoadTree(src, key, combine).Loaded? && |src| > 17 {
      var data, t := src[17..], LoadTree(src, key, combine).tree;
      forall k | 0 <= k < |t.leaves| ensures LeafAt(src, k) == t.leaves[k] {
        LeavesAt(data, |t.leaves|, k);
        assert LeafAt(src, k) == data[24 * k..24 * (k + 1)];
      }
    }
  }

  /** Either size is read from its place, unless the record is too new. */
  lemma {:induction false} InfoReadExactly(src: Bytes)
    requires |src| >= 17
    ensures if src[0] > 1 then RootInfo(src, FileSize) == 0 && RootInfo(src, BlockSize) == 0
      else Holds(src[1..9], RootInfo(src, FileSize)) && Holds(src[9..17], RootInfo(src, BlockSize))
  {
    ReadHolds(src[1..9]);
    ReadHolds(src[9..17]);
    hide Holds, GetInt64;
  }
}
