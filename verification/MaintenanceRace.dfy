/** Maintenance while files are being hashed (HashStore.cpp, optimize against addHashedFile).

    `optimize` works on two snapshots, taken one after the other, and writes each sweep's deletions
    as one batch; its comment says the snapshots keep trees that are added meanwhile.  Here any number
    of trees and entries are written while a run is under way, each at a moment of its own, and the
    lemmas say exactly which of them are lost. */
module MaintenanceRace {
  import opened MerkleTree
  import opened HashStore
  import opened Options

  /** A run does five things: it takes the snapshot of the entries, that of the trees, and writes three
      batches of deletions.  A moment is the number of them that are done. */
  const MOMENTS := 6

  /** What is written at one moment, the last record for each key. */
  datatype Writes = Writes(files: Files, trees: Trees)

  type Schedule = s: seq<Writes> | |s| == MOMENTS witness seq(MOMENTS, _ => Writes(map[], map[]))

  function FileSnapshot(files: Files, s: Schedule): Files { files + s[0].files }

  function TreeSnapshot(trees: Trees, s: Schedule): Trees { trees + s[0].trees + s[1].trees }

  /** The keys of the three batches, computed from the snapshots alone. */
  function FirstBatch(files: Files, p: Policy): set<string> {
    set k | k in files && !Live(files, p, k)
  }

  function SecondBatch(files: Files, trees: Trees, p: Policy): set<Tth> {
    set r | r in trees && !TreeStays(trees, UsedRoots(files, p), p, r)
  }

  /** The root is still marked after the second sweep. */
  predicate Marked(files: Files, trees: Trees, p: Policy, root: Tth) {
    root in UsedRoots(files, p) && !TreeStays(trees, UsedRoots(files, p), p, root)
  }

  /** The entry in hand after the first sweep has gone over these keys: the last shared one that loads. */
  function LastShared(files: Files, p: Policy, keys: seq<string>): HashedFile {
    if keys == [] then HashedFile(seq(TTH_BYTES, _ => 0), 0, -1)
    else
      var k := keys[|keys| - 1];
      if Live(files, p, k) then LoadFileInfo(files[k]).value else LastShared(files, p, keys[..|keys| - 1])
  }

  /** And after the third one has: the last one that loads, or what was left in hand by the first. */
  function LastLoaded(files: Files, keys: seq<string>, first: HashedFile): HashedFile {
    if keys == [] then first
    else
      var k := keys[|keys| - 1];
      if Loadable(files, k) then LoadFileInfo(files[k]).value else LastLoaded(files, keys[..|keys| - 1], first)
  }

  function UpTo(keys: seq<string>, k: string): seq<string> {
    if keys == [] || keys[|keys| - 1] == k then keys else UpTo(keys[..|keys| - 1], k)
  }

  /** The third sweep tests the entry in hand when it comes to a key: for one that does not load, that
      of another key.  `order` is the order of the keys in the database. */
  predicate DroppedThird(files: Files, trees: Trees, p: Policy, order: seq<string>, k: string) {
    Marked(files, trees, p, LastLoaded(files, UpTo(order, k), LastShared(files, p, order)).root)
  }

  function ThirdBatch(files: Files, trees: Trees, p: Policy, order: seq<string>): set<string> {
    set k | k in files && DroppedThird(files, trees, p, order, k)
  }

  lemma {:induction false} UpToLast(keys: seq<string>, k: string)
    requires k in keys
    ensures var some := UpTo(keys, k); some != [] && some[|some| - 1] == k
  {
    if keys[|keys| - 1] != k {
      assert keys == keys[..|keys| - 1] + [keys[|keys| - 1]];
      UpToLast(keys[..|keys| - 1], k);
    }
  }

  /** An entry that loads is tested itself. */
  lemma {:induction false} OwnEntry(files: Files, trees: Trees, p: Policy, order: seq<string>, k: string)
    requires Loadable(files, k) && k in order
    ensures DroppedThird(files, trees, p, order, k) <==> Marked(files, trees, p, RootAt(files, k))
  {
    UpToLast(order, k);
    hide LoadFileInfo, Marked, LastShared;
  }

  /** One run of `optimize` with the writes of the schedule falling into it. */
  function Run(files: Files, trees: Trees, p: Policy, order: seq<string>, s: Schedule): (Files, Trees) {
    var f, t := FileSnapshot(files, s), TreeSnapshot(trees, s);
    var afterFirst := f + s[1].files + s[2].files - FirstBatch(f, p);
    var afterSecond := t + s[2].trees + s[3].trees - SecondBatch(f, t, p);
    var afterThird := afterFirst + s[3].files + s[4].files - ThirdBatch(f, t, p, order);
    (afterThird + s[5].files, afterSecond + s[4].trees + s[5].trees)
  }

  predicate Unneeded(files: Files, p: Policy, root: Tth) {
    root !in UsedRoots(files, p) && !p.isQueued(root)
  }

  function Quiet(): Schedule { seq(MOMENTS, _ => Writes(map[], map[])) }

  /** With nothing falling into it, the batches amount to the exact collector, whatever the order. */
  lemma {:induction false} BatchesCollect(files: Files, trees: Trees, p: Policy, order: seq<string>)
    requires forall k :: k in files ==> k in order
    ensures Run(files, trees, p, order, Quiet()) == Collect(files, trees, p)
  {
    var r := Run(files, trees, p, order, Quiet());
    QuietRun(files, trees, p, order);
    SecondSweep(files, trees, p);
    hide Run, SecondBatch, LoadTree, LoadFileInfo;
    forall k | k in files && Live(files, p, k)
      ensures DroppedThird(files, trees, p, order, k) <==> RootAt(files, k) !in KeptTrees(files, trees, p)
    {
      OwnEntry(files, trees, p, order, k);
      UsedRoot(files, p, k);
      hide LoadTree, LoadFileInfo, UsedRoots, DroppedThird;
    }
    hide LoadTree, LoadFileInfo, UsedRoots, DroppedThird, KeptTrees;
    assert r.0 == KeptFiles(files, trees, p);
  }

  lemma {:induction false} QuietRun(files: Files, trees: Trees, p: Policy, order: seq<string>)
    ensures Run(files, trees, p, order, Quiet()) ==
      (files - FirstBatch(files, p) - ThirdBatch(files, trees, p, order), trees - SecondBatch(files, trees, p))
  {
    hide FirstBatch, SecondBatch, ThirdBatch;
    var none: Files, noTrees: Trees := map[], map[];
    assert forall m :: 0 <= m < MOMENTS ==> Quiet()[m] == Writes(none, noTrees);
    forall fs: Files ensures fs + none + none == fs && fs + none == fs {}
    forall ts: Trees ensures ts + noTrees + noTrees == ts && ts + noTrees == ts {}
  }

  lemma {:induction false} SecondSweep(files: Files, trees: Trees, p: Policy)
    ensures trees - SecondBatch(files, trees, p) == KeptTrees(files, trees, p)
  {
    hide UsedRoots, TreeStays;
  }

  lemma {:induction false} UsedRoot(files: Files, p: Policy, k: string)
    requires Live(files, p, k)
    ensures RootAt(files, k) in UsedRoots(files, p)
  {}

  /** A tree written at the moment i, and not again, is lost exactly if the second batch is still to come
      and the tree snapshot has the root, as that of a tree to drop. */
  lemma {:induction false} TreeLostExactly(files: Files, trees: Trees, p: Policy, order: seq<string>, s: Schedule,
      i: nat, root: Tth)
    requires i < MOMENTS && root in s[i].trees && forall j :: i < j < MOMENTS ==> root !in s[j].trees
    ensures var f, t, r := FileSnapshot(files, s), TreeSnapshot(trees, s), Run(files, trees, p, order, s).1;
      && (root !in r <==>
        && i <= 3 && root in t
        && (Unneeded(f, p, root) || (p.verify && !LoadTree(t[root], root, p.combine).Loaded?)))
      && (root in r ==> r[root] == s[i].trees[root])
  {
    hide LoadTree, UsedRoots, FirstBatch, ThirdBatch;
  }

  /** An entry written at the moment i, and not again, is lost exactly if the entry snapshot has the path
      and the first batch, still to come, drops what was there, or the third one does. */
  lemma {:induction false} EntryLostExactly(files: Files, trees: Trees, p: Policy, order: seq<string>, s: Schedule,
      i: nat, path: string)
    requires i < MOMENTS && path in s[i].files && forall j :: i < j < MOMENTS ==> path !in s[j].files
    ensures var f, t, r := FileSnapshot(files, s), TreeSnapshot(trees, s), Run(files, trees, p, order, s).0;
      && (path !in r <==>
        && i <= 4 && path in f
        && ((i <= 2 && !Live(f, p, path)) || DroppedThird(f, t, p, order, path)))
      && (path in r ==> r[path] == s[i].files[path])
  {
    hide LoadTree, LoadFileInfo, UsedRoots, SecondBatch, DroppedThird;
  }

  // ---------------------------------------------------------------- one file

  /** addHashedFile alone: the tree is written at the moment i, the entry, with the same root, at j. */
  function OneFile(i: nat, j: nat, path: string, t: TreeData, f: HashedFile): Schedule
    requires i <= j < MOMENTS
  {
    var at := (m: nat) =>
      Writes(if m == j then map[path := FileRecord(f)] else map[],
        if m == i then map[t.root := TreeRecord(t)] else map[]);
    [at(0), at(1), at(2), at(3), at(4), at(5)]
  }

  lemma {:induction false} OneFileSnapshots(files: Files, trees: Trees, i: nat, j: nat, path: string, t: TreeData,
      f: HashedFile)
    requires i <= j < MOMENTS
    ensures FileSnapshot(files, OneFile(i, j, path, t, f)) == if j == 0 then files[path := FileRecord(f)] else files
    ensures TreeSnapshot(trees, OneFile(i, j, path, t, f)) == if i <= 1 then trees[t.root := TreeRecord(t)] else trees
  {}

  /** The tree of the file is lost exactly if it came before the tree snapshot and nothing needed it, where
      a new entry only counts if it came before its snapshot and is shared; or if it came after that, but
      before the second batch, and an older record of it was to be dropped. */
  lemma {:induction false} NewTreeLostExactly(files: Files, trees: Trees, p: Policy, order: seq<string>,
                           i: nat, j: nat, path: string, t: TreeData, f: HashedFile)
    requires i <= j < MOMENTS && f.root == t.root && WellFormed(t, p.combine)
    ensures t.root !in Run(files, trees, p, order, OneFile(i, j, path, t, f)).1 <==>
      if i <= 1 then
        && !p.isQueued(t.root) && (j == 0 ==> !p.isShared(path))
        && forall k :: Live(files, p, k) && (j == 0 ==> k != path) ==> RootAt(files, k) != t.root
      else
        && i <= 3 && t.root in trees
        && (Unneeded(files, p, t.root) || (p.verify && !LoadTree(trees[t.root], t.root, p.combine).Loaded?))
  {
    var s := OneFile(i, j, path, t, f);
    var now := FileSnapshot(files, s);
    OneFileSnapshots(files, trees, i, j, path, t, f);
    TreeLostExactly(files, trees, p, order, s, i, t.root);
    TreeRoundTrip(t, p.combine);
    FileInfoRoundTrip(f);
    hide LoadTree, LoadFileInfo, Run, UsedRoots, OneFile, FileSnapshot;
    hide TreeSnapshot, TreeRecord, FileRecord, WellFormed;
    if j == 0 {
      UsedByNew(files, p, path, FileRecord(f), t.root);
    } else {
      UsedByOld(files, p, t.root);
    }
  }

  lemma {:induction false} UsedByOld(files: Files, p: Policy, root: Tth)
    ensures root !in UsedRoots(files, p) <==> forall k :: Live(files, p, k) ==> RootAt(files, k) != root
  {}

  lemma {:induction false} UsedByNew(files: Files, p: Policy, path: string, record: Bytes, root: Tth)
    requires LoadFileInfo(record).Some? && LoadFileInfo(record).value.root == root
    ensures root !in UsedRoots(files[path := record], p) <==>
      !p.isShared(path) && forall k :: Live(files, p, k) && k != path ==> RootAt(files, k) != root
  {
    var now := files[path := record];
    hide LoadFileInfo;
    assert Loadable(now, path) && RootAt(now, path) == root;
    UsedByOld(now, p, root);
    forall k | k != path ensures Live(now, p, k) <==> Live(files, p, k) {}
    forall k | k != path && Live(now, p, k) ensures RootAt(now, k) == RootAt(files, k) {}
  }

  /** The entry of the file is lost exactly if it came before its snapshot and is not shared; or if the
      database had the path, and the entry found there was to be dropped by a batch still to come: by the
      first, or by the third for its root or, if it does not load, for that of the entry in hand. */
  lemma {:induction false} NewEntryLostExactly(files: Files, trees: Trees, p: Policy, order: seq<string>,
                            i: nat, j: nat, path: string, t: TreeData, f: HashedFile)
    requires i <= j < MOMENTS && f.root == t.root && WellFormed(t, p.combine)
    requires forall k :: k in FileSnapshot(files, OneFile(i, j, path, t, f)) ==> k in order
    ensures path !in Run(files, trees, p, order, OneFile(i, j, path, t, f)).0 <==>
      if j == 0 then !p.isShared(path)
      else
        && j <= 4 && path in files
        && ((j <= 2 && !Live(files, p, path)) ||
          DroppedThird(files, if i <= 1 then trees[t.root := TreeRecord(t)] else trees, p, order, path))
  {
    var s := OneFile(i, j, path, t, f);
    var now := FileSnapshot(files, s);
    OneFileSnapshots(files, trees, i, j, path, t, f);
    EntryLostExactly(files, trees, p, order, s, j, path);
    TreeRoundTrip(t, p.combine);
    FileInfoRoundTrip(f);
    hide LoadTree, LoadFileInfo, Run, DroppedThird;
    if j == 0 {
      assert Loadable(now, path) && RootAt(now, path) == t.root;
      OwnEntry(now, TreeSnapshot(trees, s), p, order, path);
      if p.isShared(path) { UsedRoot(now, p, path); }
    }
  }

  // ---------------------------------------------------------------- the promise is broken

  /** Both databases are empty, nothing is queued, and the file falls into the run so that its tree is in
      the tree snapshot and its entry in none: between the two, or with the tree before both and the entry
      after.  The entry stays and the tree is gone. */
  lemma {:induction false} PromiseBroken(p: Policy, i: nat, j: nat, path: string, t: TreeData, f: HashedFile)
    requires i <= 1 && i <= j < MOMENTS && j > 0 && f.root == t.root && WellFormed(t, p.combine) && !p.isQueued(t.root)
    ensures var (newFiles, newTrees) := Run(map[], map[], p, [], OneFile(i, j, path, t, f));
      path in newFiles && LoadFileInfo(newFiles[path]) == Some(f) && t.root !in newTrees
  {
    NewTreeLostExactly(map[], map[], p, [], i, j, path, t, f);
    EntryLostExactly(map[], map[], p, [], OneFile(i, j, path, t, f), j, path);
    FileInfoRoundTrip(f);
    OneFileSnapshots(map[], map[], i, j, path, t, f);
    hide LoadTree, LoadFileInfo, Run;
  }

  /** A file that is hashed again, and is not shared, loses its new entry to the old one's deletion. */
  lemma {:induction false} EntryLostToOldOne(p: Policy, was: HashedFile, i: nat, j: nat, path: string, t: TreeData,
      f: HashedFile)
    requires i <= j <= 2 && f.root == t.root && WellFormed(t, p.combine) && !p.isShared(path)
    ensures path !in Run(map[path := FileRecord(was)], map[], p, [path], OneFile(i, j, path, t, f)).0
  {
    NewEntryLostExactly(map[path := FileRecord(was)], map[], p, [path], i, j, path, t, f);
    hide LoadTree, LoadFileInfo, Run;
  }

  /** A root that the tree snapshot does not have is safe. */
  lemma {:induction false} FreshRootSafeAfterSnapshots(files: Files, trees: Trees, p: Policy, order: seq<string>,
      s: Schedule, i: nat, root: Tth)
    requires i < MOMENTS && root in s[i].trees && root !in TreeSnapshot(trees, s)
    ensures root in Run(files, trees, p, order, s).1
  {
    hide LoadTree, UsedRoots, FirstBatch, ThirdBatch;
  }
}
