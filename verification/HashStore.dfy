/** The hash database (HashStore.cpp): record formats and maintenance.

    A file entry and a tree entry are byte records.  `Optimize` is a three-phase mark and sweep
    over the two databases: it marks the roots of shared files, sweeps the trees, then sweeps the
    files whose tree is gone.  `Collect` is the independent definition of what has to survive. */
module HashStore {
  import opened MerkleTree
  import opened Options

  const TTH_BYTES := 24
  const HEADER := 17
  const VERSION: Byte := 1
  const TWO63 := 0x8000_0000_0000_0000
  const TWO64 := 0x1_0000_0000_0000_0000

  type Bytes = seq<Byte>
  type Tth = s: Bytes | |s| == TTH_BYTES witness seq(TTH_BYTES, _ => 0)
  type int64 = x: int | -TWO63 <= x < TWO63
  type uint64 = x: int | 0 <= x < TWO64
  type Combine = (Tth, Tth) -> Tth

  datatype HashedFile = HashedFile(root: Tth, timeStamp: uint64, size: int64)
  datatype TreeData = TreeData(root: Tth, fileSize: int64, blockSize: int64, leaves: seq<Tth>)

  // ---------------------------------------------------------------- integers in memory

  /** The n low bytes of v, lowest first. */
  function LittleEndian(v: nat, n: nat): (r: Bytes)
    ensures |r| == n
  {
    if n == 0 then [] else [v % 256] + LittleEndian(v / 256, n - 1)
  }

  function Value(s: Bytes): nat {
    if s == [] then 0 else s[0] + 256 * Value(s[1..])
  }

  function Pow256(n: nat): nat {
    if n == 0 then 1 else 256 * Pow256(n - 1)
  }

  lemma {:induction false} ValueOfLittleEndian(v: nat, n: nat)
    requires v < Pow256(n)
    ensures Value(LittleEndian(v, n)) == v
  {
    if n > 0 { ValueOfLittleEndian(v / 256, n - 1); }
  }

  function PutInt64(v: int64): (r: Bytes)
    ensures |r| == 8
  {
    LittleEndian(if v < 0 then v + TWO64 else v, 8)
  }

  function GetInt64(s: Bytes): int64
    requires |s| == 8
  {
    BoundedValue(s);
    var v := Value(s);
    if v >= TWO63 then v - TWO64 else v
  }

  function GetUint64(s: Bytes): uint64
    requires |s| == 8
  {
    BoundedValue(s);
    Value(s)
  }

  lemma {:induction false} BoundedBy(s: Bytes)
    ensures Value(s) < Pow256(|s|)
  {
    if s != [] { BoundedBy(s[1..]); }
  }

  lemma {:induction false} EightBytes()
    ensures Pow256(8) == TWO64
  {
    assert Pow256(4) == 0x1_0000_0000;
    assert Pow256(8) == 256 * (256 * (256 * (256 * Pow256(4))));
  }

  lemma {:induction false} BoundedValue(s: Bytes)
    requires |s| == 8
    ensures Value(s) < TWO64
  {
    BoundedBy(s);
    EightBytes();
  }

  lemma {:induction false} Int64RoundTrip(v: int64)
    ensures GetInt64(PutInt64(v)) == v
  {
    EightBytes();
    ValueOfLittleEndian(if v < 0 then v + TWO64 else v, 8);
  }

  lemma {:induction false} Uint64RoundTrip(v: uint64)
    ensures GetUint64(LittleEndian(v, 8)) == v
  {
    EightBytes();
    ValueOfLittleEndian(v, 8);
  }

  /** memcpy to position p of a buffer. */
  method Memcpy(dest: array<Byte>, p: nat, src: Bytes)
    requires p + |src| <= dest.Length
    modifies dest
    ensures dest[..] == old(dest[..p]) + src + old(dest[p + |src|..])
  {
    forall i | 0 <= i < |src| {
      dest[p + i] := src[i];
    }
  }

  // ---------------------------------------------------------------- file entries

  const FILE_RECORD := 1 + 8 + TTH_BYTES + 8

  function FileRecord(f: HashedFile): (r: Bytes)
    ensures |r| == FILE_RECORD
  {
    [VERSION] + LittleEndian(f.timeStamp, 8) + f.root + PutInt64(f.size)
  }

  /** saveFileInfo: fills the buffer through a moving pointer. */
  method SaveFileInfo(dest: array<Byte>, f: HashedFile)
    requires dest.Length == FILE_RECORD
    modifies dest
    ensures dest[..] == FileRecord(f)
  {
    var p := 0;
    Memcpy(dest, p, [VERSION]);
    p := p + 1;
    Memcpy(dest, p, LittleEndian(f.timeStamp, 8));
    p := p + 8;
    Memcpy(dest, p, f.root);
    p := p + TTH_BYTES;
    Memcpy(dest, p, PutInt64(f.size));
  }

  function LoadFileInfo(src: Bytes): Option<HashedFile> {
    if |src| != FILE_RECORD || src[0] > VERSION then None
    else Some(HashedFile(src[9..33], GetUint64(src[1..9]), GetInt64(src[33..41])))
  }

  lemma {:induction false} FourParts(a: Bytes, b: Bytes, c: Bytes, d: Bytes)
    ensures var r := a + b + c + d;
      && r[|a|..|a + b|] == b && r[|a + b|..|a + b + c|] == c && r[|a + b + c|..] == r[|a + b + c|..|r|] == d
  {}

  lemma {:induction false} FileInfoRoundTrip(f: HashedFile)
    ensures LoadFileInfo(FileRecord(f)) == Some(f)
  {
    FourParts([VERSION], LittleEndian(f.timeStamp, 8), f.root, PutInt64(f.size));
    Uint64RoundTrip(f.timeStamp);
    Int64RoundTrip(f.size);
  }

  // ---------------------------------------------------------------- tree entries

  /** A tree is either a bare root or holds the leaves calcBlocks asks for, hashing to the root. */
  predicate WellFormed(t: TreeData, combine: Combine) {
    t.leaves == [t.root] || (|t.leaves| >= 2 && Sized(t) &&
      t.root == RootOf(t.leaves, t.fileSize, t.blockSize, combine))
  }

  predicate Sized(t: TreeData) {
    ValidSizes(t.fileSize, t.blockSize) && |t.leaves| == Blocks(t.fileSize, t.blockSize)
  }

  /** The block count is computed without overflow. */
  predicate ValidSizes(fileSize: int64, blockSize: int64) {
    fileSize >= 0 && blockSize > 0 && fileSize + blockSize - 1 < TWO63
  }

  /** calcRoot of the loaded leaves. */
  function RootOf(leaves: seq<Tth>, fileSize: int64, blockSize: int64, combine: Combine): Tth
    requires ValidSizes(fileSize, blockSize) && |leaves| == Blocks(fileSize, blockSize)
  {
    BlocksBounds(fileSize, blockSize);
    GetHash(leaves, blockSize, fileSize, combine)
  }

  function Concat(leaves: seq<Tth>): (r: Bytes)
    ensures |r| == TTH_BYTES * |leaves|
  {
    if leaves == [] then [] else leaves[0] + Concat(leaves[1..])
  }

  /** n hash values stored one after another. */
  function Leaves(data: Bytes, n: nat): (r: seq<Tth>)
    requires |data| >= TTH_BYTES * n
    ensures |r| == n
  {
    if n == 0 then [] else [data[..TTH_BYTES]] + Leaves(data[TTH_BYTES..], n - 1)
  }

  lemma {:induction false} LeavesOfConcat(leaves: seq<Tth>)
    ensures Leaves(Concat(leaves), |leaves|) == leaves
  {
    if leaves != [] {
      LeavesOfConcat(leaves[1..]);
      var c := Concat(leaves);
      assert c[..TTH_BYTES] == leaves[0] && c[TTH_BYTES..] == Concat(leaves[1..]);
    }
  }

  function TreeRecord(t: TreeData): Bytes {
    [VERSION] + PutInt64(t.fileSize) + PutInt64(t.blockSize) + (if |t.leaves| == 1 then [] else Concat(t.leaves))
  }

  /** addTree's buffer. */
  method EncodeTree(t: TreeData) returns (buf: array<Byte>)
    ensures fresh(buf) && buf[..] == TreeRecord(t)
  {
    var fileSize, blockSize := PutInt64(t.fileSize), PutInt64(t.blockSize);
    hide PutInt64, Concat;
    var treelen := if |t.leaves| == 1 then 0 else |t.leaves| * TTH_BYTES;
    buf := new Byte[1 + 8 + 8 + treelen];
    var p := 0;
    Memcpy(buf, p, [VERSION]);
    p := p + 1;
    assert buf[..p] == [VERSION];
    Memcpy(buf, p, fileSize);
    p := p + 8;
    assert buf[..p] == [VERSION] + fileSize;
    Memcpy(buf, p, blockSize);
    p := p + 8;
    assert buf[..p] == [VERSION] + fileSize + blockSize;
    if treelen > 0 {
      Memcpy(buf, p, Concat(t.leaves));
    }
  }

  /** What loading a tree record comes to.  Broken: the record's sizes make the source read past
      the record or divide by zero, so nothing is known about the outcome. */
  datatype TreeLoad = Loaded(tree: TreeData) | Rejected | Broken

  function LoadTree(src: Bytes, key: Tth, combine: Combine): TreeLoad {
    if |src| < HEADER || src[0] > VERSION then Rejected
    else
      var fileSize, blockSize := GetInt64(src[1..9]), GetInt64(src[9..17]);
      var data := src[HEADER..];
      if data == [] then Loaded(TreeData(key, fileSize, blockSize, [key]))
      else if !ValidSizes(fileSize, blockSize) || |data| < TTH_BYTES * Blocks(fileSize, blockSize) then Broken
      else
        var leaves := Leaves(data, Blocks(fileSize, blockSize));
        var root := RootOf(leaves, fileSize, blockSize, combine);
        if root != key then Rejected else Loaded(TreeData(root, fileSize, blockSize, leaves))
  }

  lemma {:induction false} TreeHeader(t: TreeData)
    ensures var r := TreeRecord(t);
      && |r| >= HEADER && r[0] == VERSION
      && GetInt64(r[1..9]) == t.fileSize && GetInt64(r[9..17]) == t.blockSize
      && r[HEADER..] == if |t.leaves| == 1 then [] else Concat(t.leaves)
  {
    var r := TreeRecord(t);
    assert r[1..9] == PutInt64(t.fileSize);
    assert r[9..17] == PutInt64(t.blockSize);
    Int64RoundTrip(t.fileSize);
    Int64RoundTrip(t.blockSize);
  }

  /** Every well-formed tree comes back whole, bare roots (no leaf bytes) included. */
  lemma {:induction false} TreeRoundTrip(t: TreeData, combine: Combine)
    requires WellFormed(t, combine)
    ensures LoadTree(TreeRecord(t), t.root, combine) == Loaded(t)
  {
    TreeHeader(t);
    if |t.leaves| > 1 { LeavesOfConcat(t.leaves); }
  }

  /** Whatever loads under a key is a well-formed tree with that root: leaf bytes that do not hash
      to the key are never accepted. */
  lemma {:induction false} LoadedIsGenuine(src: Bytes, key: Tth, combine: Combine)
    requires LoadTree(src, key, combine).Loaded?
    ensures var t := LoadTree(src, key, combine).tree;
      t.root == key && WellFormed(t, combine) &&
        (|src| > HEADER ==> Sized(t) && key == RootOf(t.leaves, t.fileSize, t.blockSize, combine))
  {
    var t := LoadTree(src, key, combine).tree;
    if |t.leaves| == 1 && |src| > HEADER {
      BlocksBounds(t.fileSize, t.blockSize);
      assert t.fileSize <= 1 * t.blockSize;
    }
  }

  datatype InfoType = FileSize | BlockSize

  /** getRootInfo's reader: one of the two sizes straight from the header, 0 when it is too new. */
  function RootInfo(src: Bytes, kind: InfoType): int64
    requires |src| >= HEADER
  {
    if src[0] > VERSION then 0
    else if kind == FileSize then GetInt64(src[1..9]) else GetInt64(src[9..17])
  }

  lemma {:induction false} RootInfoAgrees(t: TreeData)
    ensures |TreeRecord(t)| >= HEADER
    ensures RootInfo(TreeRecord(t), FileSize) == t.fileSize && RootInfo(TreeRecord(t), BlockSize) == t.blockSize
  {
    TreeHeader(t);
  }

  // ---------------------------------------------------------------- maintenance: what must survive

  type Files = map<string, Bytes>
  type Trees = map<Tth, Bytes>

  /** What maintenance asks the rest of the program, and whether it reads every kept tree. */
  datatype Policy = Policy(isShared: string -> bool, isQueued: Tth -> bool, verify: bool, combine: Combine)

  predicate Loadable(files: Files, path: string) {
    path in files && LoadFileInfo(files[path]).Some?
  }

  function RootAt(files: Files, path: string): Tth
    requires Loadable(files, path)
  {
    LoadFileInfo(files[path]).value.root
  }

  /** A file entry worth keeping if its tree is there. */
  predicate Live(files: Files, p: Policy, path: string) {
    Loadable(files, path) && p.isShared(path)
  }

  function UsedRoots(files: Files, p: Policy): set<Tth> {
    set path | path in files && Live(files, p, path) :: RootAt(files, path)
  }

  predicate TreeStays(trees: Trees, used: set<Tth>, p: Policy, root: Tth) {
    && root in trees && (root in used || p.isQueued(root))
    && (p.verify ==> LoadTree(trees[root], root, p.combine).Loaded?)
  }

  function KeptTrees(files: Files, trees: Trees, p: Policy): Trees {
    var used := UsedRoots(files, p);
    map root | root in trees && TreeStays(trees, used, p, root) :: trees[root]
  }

  function LiveFiles(files: Files, p: Policy): Files {
    map path | path in files && Live(files, p, path) :: files[path]
  }

  function KeptFiles(files: Files, trees: Trees, p: Policy): Files {
    map path | path in files && Live(files, p, path) && RootAt(files, path) in KeptTrees(files, trees, p) :: files[path]
  }

  /** The exact collector: what one complete run leaves behind. */
  function Collect(files: Files, trees: Trees, p: Policy): (Files, Trees) {
    (KeptFiles(files, trees, p), KeptTrees(files, trees, p))
  }

  /** The databases after the first `phases` sweeps of a run that then hit a database error. */
  function After(phases: nat, files: Files, trees: Trees, p: Policy): (Files, Trees) {
    if phases == 0 then (files, trees)
    else if phases == 1 then (LiveFiles(files, p), trees)
    else if phases == 2 then (LiveFiles(files, p), KeptTrees(files, trees, p))
    else Collect(files, trees, p)
  }

  // ---------------------------------------------------------------- maintenance: the sweeps

  class Store {
    var fileDb: Files
    var hashDb: Trees

    constructor ()
      ensures fileDb == map[] && hashDb == map[]
    {
      fileDb, hashDb := map[], map[];
    }

    method AddTree(t: TreeData)
      modifies this`hashDb
      ensures hashDb == old(hashDb)[t.root := TreeRecord(t)]
    {
      var buf := EncodeTree(t);
      hashDb := hashDb[t.root := buf[..]];
    }

    method AddFile(path: string, f: HashedFile)
      modifies this`fileDb
      ensures fileDb == old(fileDb)[path := FileRecord(f)]
    {
      var buf := new Byte[FILE_RECORD];
      SaveFileInfo(buf, f);
      fileDb := fileDb[path := buf[..]];
    }

    /** The tree goes in before the entry that refers to it. */
    method AddHashedFile(path: string, t: TreeData, f: HashedFile)
      modifies this
      ensures hashDb == old(hashDb)[t.root := TreeRecord(t)]
      ensures fileDb == old(fileDb)[path := FileRecord(f)]
    {
      AddTree(t);
      AddFile(path, f);
    }

    /** First sweep: drop entries that are not shared or do not load, mark the roots of the rest.
        `fi` is the source's last loaded entry; it outlives the sweep. */
    method SweepFiles(snapshot: Files, p: Policy, fails: bool) returns (ok: bool, usedRoots: set<Tth>, fi: HashedFile)
      requires snapshot == fileDb
      modifies this`fileDb
      ensures ok == !fails && (!ok ==> fileDb == old(fileDb))
      ensures ok ==> usedRoots == UsedRoots(snapshot, p) && fileDb == LiveFiles(snapshot, p)
    {
      fi := HashedFile(seq(TTH_BYTES, _ => 0), 0, -1);
      usedRoots := {};
      var batch, todo := {}, snapshot.Keys;
      while todo != {}
        invariant todo <= snapshot.Keys
        invariant batch == set k | k in snapshot.Keys - todo && !Live(snapshot, p, k)
        invariant forall k :: k in snapshot.Keys - todo && Live(snapshot, p, k) ==> RootAt(snapshot, k) in usedRoots
        invariant usedRoots <= UsedRoots(snapshot, p)
      {
        var path :| path in todo;
        if p.isShared(path) {
          var loaded := LoadFileInfo(snapshot[path]);
          if loaded.None? {
            batch := batch + {path};
          } else {
            fi := loaded.value;
            usedRoots := usedRoots + {fi.root};
          }
        } else {
          batch := batch + {path};
        }
        todo := todo - {path};
      }
      if fails { return false, usedRoots, fi; }
      fileDb := fileDb - batch;
      ok := true;
    }

    /** Second sweep: drop trees nobody needs and, when verifying, trees that do not load.  A used
        root whose tree stays is unmarked. */
    method SweepTrees(snapshot: Trees, marked: set<Tth>, p: Policy, fails: bool) returns (ok: bool, usedRoots: set<Tth>)
      requires snapshot == hashDb
      modifies this`hashDb
      ensures ok == !fails && (!ok ==> hashDb == old(hashDb))
      ensures ok ==> hashDb == map r | r in snapshot && TreeStays(snapshot, marked, p, r) :: snapshot[r]
      ensures ok ==> usedRoots == marked - hashDb.Keys
    {
      usedRoots := marked;
      var batch, todo := {}, snapshot.Keys;
      while todo != {}
        invariant todo <= snapshot.Keys
        invariant batch == set r | r in snapshot.Keys - todo && !TreeStays(snapshot, marked, p, r)
        invariant usedRoots == set r | r in marked && !(r in snapshot.Keys - todo && TreeStays(snapshot, marked, p, r))
      {
        var root :| root in todo;
        if root !in usedRoots && !p.isQueued(root) {
          batch := batch + {root};
        } else if !p.verify || LoadTree(snapshot[root], root, p.combine).Loaded? {
          usedRoots := usedRoots - {root};
        } else {
          batch := batch + {root};
        }
        todo := todo - {root};
      }
      if fails { return false, usedRoots; }
      hashDb := hashDb - batch;
      ok := true;
    }

    /** Third sweep: drop entries whose root is still marked.  It walks the snapshot taken at the
        start, so it sees again what the first sweep dropped; for an entry that does not load it
        tests whatever entry was loaded last. */
    method SweepMissing(snapshot: Files, usedRoots: set<Tth>, p: Policy, last: HashedFile,
        fails: bool) returns (ok: bool)
      requires fileDb == LiveFiles(snapshot, p)
      modifies this`fileDb
      ensures ok == !fails && (!ok ==> fileDb == old(fileDb))
      ensures ok ==>
        fileDb == map k | k in snapshot && Live(snapshot, p, k) && RootAt(snapshot, k) !in usedRoots :: snapshot[k]
    {
      var fi := last;
      var batch, todo := {}, snapshot.Keys;
      while todo != {}
        invariant todo <= snapshot.Keys && batch <= snapshot.Keys - todo
        invariant forall k :: k in snapshot.Keys - todo && Loadable(snapshot, k) ==>
          (k in batch <==> RootAt(snapshot, k) in usedRoots)
      {
        var path :| path in todo;
        var loaded := LoadFileInfo(snapshot[path]);
        if loaded.Some? {
          fi := loaded.value;
        }
        if fi.root in usedRoots {
          batch := batch + {path};
        }
        todo := todo - {path};
      }
      if fails { return false; }
      fileDb := fileDb - batch;
      ok := true;
    }

    /** optimize.  `faults` is the number of sweeps that succeed before a database error ends the
        run; with three or more the run is complete. */
    method Optimize(p: Policy, faults: nat)
      modifies this
      ensures (fileDb, hashDb) == After(faults, old(fileDb), old(hashDb), p)
    {
      ghost var files, trees := fileDb, hashDb;
      var fileSnapshot, hashSnapshot := fileDb, hashDb;
      var ok, usedRoots, fi := SweepFiles(fileSnapshot, p, faults == 0);
      if !ok { return; }
      ok, usedRoots := SweepTrees(hashSnapshot, usedRoots, p, faults == 1);
      if !ok { return; }
      assert hashDb == KeptTrees(files, trees, p);
      if usedRoots != {} {
        ok := SweepMissing(fileSnapshot, usedRoots, p, fi, faults == 2);
        if !ok { return; }
      }
      MarkedAreMissing(files, trees, p, usedRoots);
    }
  }

  /** What is still marked after the second sweep is exactly what lost its tree. */
  lemma {:induction false} MarkedAreMissing(files: Files, trees: Trees, p: Policy, marked: set<Tth>)
    requires marked == UsedRoots(files, p) - KeptTrees(files, trees, p).Keys
    ensures KeptFiles(files, trees, p) ==
      map k | k in files && Live(files, p, k) && RootAt(files, k) !in marked :: files[k]
    ensures marked == {} ==> KeptFiles(files, trees, p) == LiveFiles(files, p)
  {
    forall k | k in files && Live(files, p, k)
      ensures RootAt(files, k) in marked <==> RootAt(files, k) !in KeptTrees(files, trees, p)
    {
      assert RootAt(files, k) in UsedRoots(files, p);
    }
  }

  // ---------------------------------------------------------------- maintenance: what it achieves

  ghost predicate Needed(files: Files, p: Policy, root: Tth) {
    p.isQueued(root) || exists path :: Live(files, p, path) && RootAt(files, path) == root
  }

  predicate Intact(trees: Trees, p: Policy, root: Tth) {
    root in trees && (p.verify ==> LoadTree(trees[root], root, p.combine).Loaded?)
  }

  /** Exactly the needed, intact trees and exactly the live entries with such a tree survive, with
      their records unchanged; so no entry dangles and no tree is garbage. */
  lemma {:induction false} CollectIsExact(files: Files, trees: Trees, p: Policy)
    ensures var (f, t) := Collect(files, trees, p);
      && (forall root :: root in t <==> Intact(trees, p, root) && Needed(files, p, root))
      && (forall root :: root in t ==> t[root] == trees[root])
      && (forall path :: path in f <==> Live(files, p, path) && Intact(trees, p, RootAt(files, path)))
      && (forall path :: path in f ==> f[path] == files[path])
      && (forall path :: path in f ==> Loadable(f, path) && RootAt(f, path) in t)
      && (forall root :: root in t && !p.isQueued(root) ==> exists path :: path in f && RootAt(files, path) == root)
  {
    var (f, t) := Collect(files, trees, p);
    forall root | root in t && !p.isQueued(root) ensures exists path :: path in f && RootAt(files, path) == root {
      var path :| path in files && Live(files, p, path) && RootAt(files, path) == root;
      assert path in f;
    }
  }

  /** Runs compose: after a run of either kind, a further run of either kind leaves what one run
      leaves that verifies if one of them did.  With again == p.verify this is idempotence. */
  lemma {:induction false} RunsCompose(files: Files, trees: Trees, p: Policy, again: bool)
    ensures var (f, t) := Collect(files, trees, p);
      Collect(f, t, p.(verify := again)) == Collect(files, trees, p.(verify := p.verify || again))
  {
    var (f, t) := Collect(files, trees, p);
    var (g, u) := Collect(f, t, p.(verify := again));
    var (h, v) := Collect(files, trees, p.(verify := p.verify || again));
    hide Collect;
    forall root ensures (root in u <==> root in v) && (root in u ==> u[root] == v[root]) {
      SameTree(files, trees, p, again, root);
    }
    forall path ensures (path in g <==> path in h) && (path in g ==> g[path] == h[path]) {
      SameEntry(files, trees, p, again, path);
    }
    assert u == v && g == h;
  }

  lemma {:induction false} SameEntry(files: Files, trees: Trees, p: Policy, again: bool, path: string)
    ensures var (f, t) := Collect(files, trees, p);
      var g, h := Collect(f, t, p.(verify := again)).0, Collect(files, trees, p.(verify := p.verify || again)).0;
      (path in g <==> path in h) && (path in g ==> g[path] == h[path])
  {
    hide Collect, LoadTree, LoadFileInfo;
    var (f, t) := Collect(files, trees, p);
    CollectIsExact(files, trees, p);
    CollectIsExact(f, t, p.(verify := again));
    CollectIsExact(files, trees, p.(verify := p.verify || again));
    if path in f { assert RootAt(f, path) == RootAt(files, path); }
  }

  lemma {:induction false} SameTree(files: Files, trees: Trees, p: Policy, again: bool, root: Tth)
    ensures var (f, t) := Collect(files, trees, p);
      var u, v := Collect(f, t, p.(verify := again)).1, Collect(files, trees, p.(verify := p.verify || again)).1;
      (root in u <==> root in v) && (root in u ==> u[root] == v[root])
  {
    hide Collect, LoadTree, LoadFileInfo;
    var q, both := p.(verify := again), p.(verify := p.verify || again);
    var (f, t) := Collect(files, trees, p);
    var (g, u) := Collect(f, t, q);
    var (h, v) := Collect(files, trees, both);
    CollectIsExact(files, trees, p);
    CollectIsExact(f, t, q);
    CollectIsExact(files, trees, both);
    if root in v && !p.isQueued(root) {
      var path :| path in h && RootAt(files, path) == root;
      assert Live(f, q, path) && RootAt(f, path) == root;
    }
    if root in u && !p.isQueued(root) {
      var path :| path in g && RootAt(f, path) == root;
      assert Live(files, both, path) && RootAt(files, path) == root;
    }
  }

  lemma {:induction false} OptimizeIdempotent(files: Files, trees: Trees, p: Policy)
    ensures var (f, t) := Collect(files, trees, p); Collect(f, t, p) == (f, t)
  {
    RunsCompose(files, trees, p, p.verify);
    assert p.(verify := p.verify) == p;
  }

  /** What is left when a database error ends a run: after the first sweep the shared entries that load and
      all trees, after the second one the same entries and the trees of a complete run. */
  lemma {:induction false} AbortedExactly(files: Files, trees: Trees, p: Policy, phases: nat)
    requires phases <= 2
    ensures var (f, t) := After(phases, files, trees, p);
      && (forall path :: path in f <==> path in files && (phases == 0 || Live(files, p, path)))
      && (forall root :: root in t <==>
        root in trees && (phases < 2 || (Intact(trees, p, root) && Needed(files, p, root))))
      && (forall path :: path in f ==> f[path] == files[path]) && (forall root :: root in t ==> t[root] == trees[root])
  {
    CollectIsExact(files, trees, p);
    hide LoadTree, LoadFileInfo;
  }

  /** A run cut short by a database error after any number of sweeps loses nothing: a later
      complete run ends where it would have ended without the aborted one. */
  lemma {:induction false} AbortedRunIsHarmless(files: Files, trees: Trees, p: Policy, phases: nat)
    ensures var (f, t) := After(phases, files, trees, p); Collect(f, t, p) == Collect(files, trees, p)
  {
    hide LoadTree, LoadFileInfo;
    var (f, t) := After(phases, files, trees, p);
    if phases >= 3 {
      OptimizeIdempotent(files, trees, p);
    } else {
      assert UsedRoots(f, p) == UsedRoots(files, p) by {
        forall path | path in files && Live(files, p, path)
          ensures path in f && Live(f, p, path) && RootAt(f, path) == RootAt(files, path) {}
      }
      assert KeptTrees(f, t, p) == KeptTrees(files, trees, p);
      assert KeptFiles(f, t, p) == KeptFiles(files, trees, p);
    }
  }
}
