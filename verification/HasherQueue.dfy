/** The queue of a hasher: a container sorted by path (core/classes/SortedVector.h), with its
    per-device counts and byte total (hash/Hasher.cpp). */
module HasherQueue {
  import opened Ordering

  /** `path` is the lower-case path that orders the queue and identifies the item. */
  datatype Item = Item(path: string, size: nat, device: nat)

  ghost predicate Sorted(w: seq<Item>) {
    forall i, j :: 0 <= i < j < |w| ==> PathLess(w[i].path, w[j].path)
  }

  predicate HasPath(w: seq<Item>, path: string) {
    exists i :: 0 <= i < |w| && w[i].path == path
  }

  /** The position before which everything is smaller. */
  function Position(w: seq<Item>, path: string): (p: nat)
    ensures p <= |w|
    ensures forall i :: 0 <= i < p ==> PathLess(w[i].path, path)
    ensures p < |w| ==> !PathLess(w[p].path, path)
  {
    if w == [] || !PathLess(w[0].path, path) then 0 else 1 + Position(w[1..], path)
  }

  function Insert(w: seq<Item>, item: Item): seq<Item> {
    var p := Position(w, item.path);
    w[..p] + [item] + w[p..]
  }

  lemma {:induction false} PositionUnique(w: seq<Item>, path: string, p: nat)
    requires Sorted(w) && p <= |w|
    requires forall i :: 0 <= i < p ==> PathLess(w[i].path, path)
    requires p < |w| ==> !PathLess(w[p].path, path)
    ensures p == Position(w, path)
  {}

  /** The items of one directory stand together. */
  lemma {:induction false} DirectoryTogether(w: seq<Item>, i: nat, j: nat, k: nat, dir: string, a: string, c: string)
    returns (b: string)
    requires Sorted(w) && i <= j <= k < |w| && IsDirectory(dir) && SEPARATOR !in a && SEPARATOR !in c
    requires w[i].path == dir + a && w[k].path == dir + c
    ensures w[j].path == dir + b && SEPARATOR !in b
  {
    FilePathOf(dir, a);
    FilePathOf(dir, c);
    var path := w[j].path;
    PathLessOrder(w[i].path, path, w[k].path);
    assert i < j ==> PathLess(w[i].path, path);
    assert j < k ==> PathLess(path, w[k].path);
    LessIrreflexive(dir);
    if Less(dir, FilePath(path)) && Less(FilePath(path), dir) { LessTransitive(dir, FilePath(path), dir); }
    hide Less;
    LessTotal(dir, FilePath(path));
    b := BehindDirectory(path, dir);
  }

  /** getPos: binary search for the path or the place where it belongs. */
  method GetPos(w: seq<Item>, path: string) returns (first: nat, found: bool)
    requires Sorted(w)
    ensures found <==> HasPath(w, path)
    ensures found ==> first < |w| && w[first].path == path
    ensures !found ==> first == Position(w, path)
  {
    var count := |w|;
    first := 0;
    while count > 0
      invariant 0 <= count && first + count <= |w|
      invariant forall i :: 0 <= i < first ==> PathLess(w[i].path, path)
      invariant forall i :: first + count <= i < |w| ==> PathLess(path, w[i].path)
      decreases count
    {
      var step := count / 2;
      var it := first + step;
      if PathLess(w[it].path, path) {
        forall i | 0 <= i < it ensures PathLess(w[i].path, path) {
          PathLessOrder(w[i].path, w[it].path, path);
        }
        first, count := it + 1, count - (step + 1);
      } else if w[it].path == path {
        return it, true;
      } else {
        PathLessOrder(w[it].path, path, path);
        forall i | it <= i < |w| ensures PathLess(path, w[i].path) {
          PathLessOrder(path, w[it].path, w[i].path);
        }
        count := step;
      }
    }
    found := false;
    forall i | 0 <= i < |w| ensures w[i].path != path {
      PathLessOrder(w[i].path, path, path);
    }
    if first < |w| { PathLessOrder(path, w[first].path, path); }
    PositionUnique(w, path, first);
  }

  /** emplace_sorted: append when the path is the largest, else search for its place; a path that
      is there already is not added again. */
  method EmplaceSorted(w: seq<Item>, item: Item) returns (r: seq<Item>, added: bool)
    requires Sorted(w)
    ensures added <==> !HasPath(w, item.path)
    ensures r == if added then Insert(w, item) else w
    ensures Sorted(r)
  {
    InsertSorted(w, item);
    if w == [] {
      return [item], true;
    }
    var back := w[|w| - 1];
    if PathLess(back.path, item.path) {
      forall i | 0 <= i < |w| ensures PathLess(w[i].path, item.path) && w[i].path != item.path {
        PathLessOrder(w[i].path, back.path, item.path);
        PathLessOrder(w[i].path, item.path, item.path);
      }
      PositionUnique(w, item.path, |w|);
      assert w[..|w|] == w;
      return w + [item], true;
    }
    if back.path == item.path {
      return w, false;
    }
    var p, found := GetPos(w, item.path);
    if found {
      return w, false;
    }
    return w[..p] + [item] + w[p..], true;
  }

  /** From the position on, everything is larger than a path that is not there. */
  lemma {:induction false} BehindPosition(w: seq<Item>, path: string, k: nat)
    requires Sorted(w) && !HasPath(w, path) && Position(w, path) <= k < |w|
    ensures PathLess(path, w[k].path)
  {
    var p := Position(w, path);
    hide PathLess, Position;
    assert w[p].path != path;
    PathLessOrder(w[p].path, path, path);
    if p < k { PathLessOrder(path, w[p].path, w[k].path); }
  }

  lemma {:induction false} InsertSorted(w: seq<Item>, item: Item)
    requires Sorted(w)
    ensures !HasPath(w, item.path) ==> Sorted(Insert(w, item))
  {
    if !HasPath(w, item.path) {
      var p, r := Position(w, item.path), Insert(w, item);
      forall k | p <= k < |w| ensures PathLess(item.path, w[k].path) { BehindPosition(w, item.path, k); }
      hide PathLess, HasPath, Position, Insert;
      forall i, j | 0 <= i < j < |r| ensures PathLess(r[i].path, r[j].path) {
        InsertedAt(w, item, i);
        InsertedAt(w, item, j);
      }
    }
  }

  lemma {:induction false} InsertedAt(w: seq<Item>, item: Item, k: nat)
    requires k < |Insert(w, item)|
    ensures var p := Position(w, item.path);
      |Insert(w, item)| == |w| + 1 && Insert(w, item)[k] == if k < p then w[k] else if k == p then item else w[k - 1]
  {
    hide PathLess, Position;
  }

  // ---------------------------------------------------------------- counts

  function Count(w: seq<Item>, d: nat): nat {
    if w == [] then 0 else (if w[0].device == d then 1 else 0) + Count(w[1..], d)
  }

  function Bytes(w: seq<Item>): nat {
    if w == [] then 0 else w[0].size + Bytes(w[1..])
  }

  lemma {:induction false} CountAppend(a: seq<Item>, b: seq<Item>, d: nat)
    ensures Count(a + b, d) == Count(a, d) + Count(b, d)
    ensures Bytes(a + b) == Bytes(a) + Bytes(b)
  {
    if a == [] {
      assert a + b == b;
    } else {
      CountAppend(a[1..], b, d);
      assert (a + b)[1..] == a[1..] + b;
    }
  }

  lemma {:induction false} CountInsert(w: seq<Item>, item: Item, d: nat)
    ensures Count(Insert(w, item), d) == Count(w, d) + (if item.device == d then 1 else 0)
    ensures Bytes(Insert(w, item)) == Bytes(w) + item.size
  {
    var p := Position(w, item.path);
    CountAppend(w[..p] + [item], w[p..], d);
    CountAppend(w[..p], [item], d);
    CountAppend(w[..p], w[p..], d);
    assert w[..p] + w[p..] == w;
    assert [item][1..] == [];
  }

  /** What stays in the queue when the items under a directory are taken out. */
  function Without(w: seq<Item>, under: Item -> bool): seq<Item> {
    if w == [] then [] else (if under(w[0]) then [] else [w[0]]) + Without(w[1..], under)
  }

  /** An item stays exactly if it was queued and is not below the directory. */
  lemma {:induction false} WithoutExact(w: seq<Item>, under: Item -> bool, item: Item)
    ensures item in Without(w, under) <==> item in w && !under(item)
  {
    if w != [] {
      WithoutExact(w[1..], under, item);
      assert item in w <==> item == w[0] || item in w[1..];
    }
  }

  lemma {:induction false} WithoutSorted(w: seq<Item>, under: Item -> bool)
    requires Sorted(w)
    ensures Sorted(Without(w, under))
  {
    if w != [] {
      WithoutSorted(w[1..], under);
      var rest := Without(w[1..], under);
      forall k | 0 <= k < |rest| ensures PathLess(w[0].path, rest[k].path) {
        WithoutExact(w[1..], under, rest[k]);
        assert rest[k] in w[1..];
        var j :| 0 <= j < |w[1..]| && w[1..][j] == rest[k];
        assert w[j + 1] == rest[k];
      }
    }
  }

  // ---------------------------------------------------------------- device counts

  type Devices = map<nat, int>

  function Inc(m: Devices, d: nat): Devices {
    m[d := (if d in m then m[d] else 0) + 1]
  }

  /** removeDevice: an entry that drops to zero is erased. */
  function Dec(m: Devices, d: nat): Devices {
    if d !in m then m
    else if m[d] == 1 then m - {d}
    else m[d := m[d] - 1]
  }

  /** The counts are exactly the numbers of items per device, with no zero entries.  `flight` is
      the item taken out of the queue and being hashed. */
  ghost predicate Tally(m: Devices, w: seq<Item>, flight: seq<Item>) {
    && (forall d :: d in m ==> m[d] == Count(w, d) + Count(flight, d) && m[d] > 0)
    && (forall d {:trigger Count(w, d)} :: d !in m ==> Count(w, d) == 0 && Count(flight, d) == 0)
  }

  lemma {:induction false} TallyInsert(m: Devices, w: seq<Item>, flight: seq<Item>, item: Item)
    requires Tally(m, w, flight)
    ensures Tally(Inc(m, item.device), Insert(w, item), flight)
  {
    forall d ensures d in m || Count(w, d) == 0 { }
    forall d ensures Count(Insert(w, item), d) == Count(w, d) + (if item.device == d then 1 else 0) {
      CountInsert(w, item, d);
    }
  }

  /** Taking one item out of the queue or out of flight. */
  lemma {:induction false} TallyRemove(m: Devices, w: seq<Item>, flight: seq<Item>, v: seq<Item>, g: seq<Item>,
      item: Item)
    requires Tally(m, w, flight)
    requires forall d {:trigger Count(v, d)} ::
      Count(w, d) + Count(flight, d) == Count(v, d) + Count(g, d) + (if item.device == d then 1 else 0)
    ensures Tally(Dec(m, item.device), v, g)
  {
    var r := Dec(m, item.device);
    forall d ensures Count(w, d) + Count(flight, d) == Count(v, d) + Count(g, d) + (if item.device == d then 1 else 0) {
      assert Count(v, d) >= 0;
    }
    assert Count(v, item.device) >= 0 && Count(w, item.device) >= 0;
    assert item.device in m;
  }
}
