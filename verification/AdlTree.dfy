/** What an ADL search pass puts into its destination directories, as functions of the listing.

    A destination is a virtual directory with a cursor into it.  `Walk` says what the destination
    looks like after part of a directory was visited; the lemmas below it show that the steps of the
    traversal (modules/ADLSearch.cpp) keep to it. */
module AdlTree {

  import opened DirectoryTree
  import opened Names
  import opened Options

  /** A directory with the ADC path it has, or, in a copy, the one it was copied from. */
  type Dir = Tree<string>

  /** A directory at the given path of a file list: sibling directories differ in name. */
  ghost predicate Listing(d: Dir, path: string) {
    && d.info == path && Distinct(d.subs)
    && forall i :: 0 <= i < |d.subs| ==> Listing(d.subs[i], path + d.subs[i].name + "/")
  }

  // ---------------------------------------------------------------- searches

  datatype Source = OnlyFile | OnlyDirectory | FullPath

  datatype Item = ADirectory(name: string) | AFile(name: string, nmdcPath: string, size: int)

  /** Negative sizes are not checked. */
  datatype Search = Search(isActive: bool, source: Source, minSize: int, maxSize: int, sizeBase: nat,
                           destDir: string, ddIndex: nat, pattern: string -> bool) {
    predicate MatchesFile(f: string, fp: string, size: int) {
      && isActive
      && !(size >= 0 && (source.OnlyFile? || source.FullPath?) &&
           ((minSize >= 0 && size < minSize * sizeBase) || (maxSize >= 0 && size > maxSize * sizeBase)))
      && match source
         case OnlyDirectory => false
         case OnlyFile => pattern(f)
         case FullPath => pattern(fp)
    }

    predicate MatchesDirectory(d: string) {
      isActive && source.OnlyDirectory? && pattern(d)
    }

    predicate Matches(item: Item) {
      match item
      case ADirectory(name) => MatchesDirectory(name)
      case AFile(name, nmdcPath, size) => MatchesFile(name, nmdcPath, size)
    }
  }

  datatype Rules = Rules(searches: seq<Search>, breakOnFirst: bool)

  /** The destinations chosen for an item by the searches from the j-th on, none of them in `taken`. */
  function Chosen(r: Rules, item: Item, j: nat, taken: set<nat>): set<nat>
    requires j <= |r.searches|
    decreases |r.searches| - j
  {
    if j == |r.searches| then {}
    else
      var s := r.searches[j];
      if s.ddIndex in taken || !s.Matches(item) then Chosen(r, item, j + 1, taken)
      else if r.breakOnFirst then {s.ddIndex}
      else {s.ddIndex} + Chosen(r, item, j + 1, taken + {s.ddIndex})
  }

  /** An item without a name is not matched. */
  function Hits(r: Rules, item: Item, taken: set<nat>): set<nat> {
    if item.name == "" then {} else Chosen(r, item, 0, taken)
  }

  function ToNmdcFile(file: string): string {
    if file == "" then ""
    else seq(|file| - 1, i requires 0 <= i < |file| - 1 => if file[i + 1] == '/' then '\\' else file[i + 1])
  }

  function FileHits(r: Rules, f: File, path: string): set<nat> {
    Hits(r, AFile(f.name, ToNmdcFile(path + f.name), f.size), {})
  }

  /** The open destinations while below a directory. */
  function OpenBelow(r: Rules, d: Dir, open: set<nat>): set<nat> {
    open + Hits(r, ADirectory(d.name), open)
  }

  // ---------------------------------------------------------------- what destination i receives

  function FilesHere(r: Rules, i: nat, files: seq<File>, path: string): seq<File> {
    if files == [] then []
    else
      var f := files[|files| - 1];
      FilesHere(r, i, files[..|files| - 1], path) + if i in FileHits(r, f, path) then [f] else []
  }

  /** The matched files of a directory, those of its subdirectories first. */
  function FilesOf(r: Rules, i: nat, d: Dir): seq<File> {
    FilesOfAll(r, i, d.subs) + FilesHere(r, i, d.files, d.info)
  }

  function FilesOfAll(r: Rules, i: nat, ds: seq<Dir>): seq<File> {
    if ds == [] then [] else FilesOfAll(r, i, ds[..|ds| - 1]) + FilesOf(r, i, ds[|ds| - 1])
  }

  /** The directories to be copied from d on: d itself when it is matched, else those below it. */
  function TopIn(r: Rules, i: nat, d: Dir, open: set<nat>): seq<Dir> {
    if i in open then []
    else if i in OpenBelow(r, d, open) then [d]
    else TopOf(r, i, d.subs, OpenBelow(r, d, open))
  }

  function TopOf(r: Rules, i: nat, ds: seq<Dir>, open: set<nat>): seq<Dir> {
    if ds == [] then [] else TopOf(r, i, ds[..|ds| - 1], open) + TopIn(r, i, ds[|ds| - 1], open)
  }

  function Add(ds: seq<Dir>, d: Dir): seq<Dir> {
    ds + [d.(name := UniqueName(NamesOf(ds), d.name))]
  }

  function AddAll(ds: seq<Dir>, news: seq<Dir>): seq<Dir> {
    if news == [] then ds else Add(AddAll(ds, news[..|news| - 1]), news[|news| - 1])
  }

  // ---------------------------------------------------------------- one destination

  datatype Dest = Dest(name: string, dir: Dir, subdir: Option<seq<nat>>, fileAdded: bool) {
    /** The cursor is null or at a directory strictly inside. */
    predicate Valid() {
      subdir.Some? ==> subdir.value != [] && Reaches(dir, subdir.value)
    }

    /** Without the scratch flag of the file matching. */
    function Core(): Dest { this.(fileAdded := false) }

    /** The directory at the cursor has nothing in it yet. */
    predicate Ready() {
      Valid() && (subdir.Some? ==> Node(dir, subdir.value).files == [] && Node(dir, subdir.value).subs == [])
    }
  }

  /** A new directory inside the one at p, under a free name; the cursor goes there. */
  function Create(dest: Dest, p: seq<nat>, name: string, path: string): (r: Dest)
    requires Reaches(dest.dir, p)
  {
    var n := Node(dest.dir, p);
    var added := Tree(UniqueName(NamesOf(n.subs), name), path, [], []);
    dest.(dir := Put(dest.dir, p, n.(subs := n.subs + [added])), subdir := Some(p + [|n.subs|]))
  }

  /** Going into a directory of the listing. */
  function Enter(dest: Dest, hit: bool, name: string, path: string): Dest
    requires dest.Valid()
  {
    match dest.subdir
    case Some(p) => Create(dest, p, name, path)
    case None => if hit then Create(dest, [], name, path) else dest
  }

  /** A file of the listing: into the copy at the cursor, and into the destination if it is a hit. */
  function TakeFile(dest: Dest, hit: bool, f: File): Dest
    requires dest.Valid()
  {
    var copied := if dest.subdir.None? then dest.dir else
      var n := Node(dest.dir, dest.subdir.value);
      Put(dest.dir, dest.subdir.value, n.(files := n.files + [f]));
    dest.(dir := if hit then copied.(files := copied.files + [f]) else copied, fileAdded := hit)
  }

  function StepUp(dest: Dest): Dest
    requires dest.Valid()
  {
    match dest.subdir
    case None => dest
    case Some(p) => dest.(subdir := if |p| == 1 then None else Some(p[..|p| - 1]))
  }

  /** Destination i after the subdirectories ds and the files fs of a directory.  Closed, it gets the
      copies of the topmost matched directories; open, the directory at the cursor gets ds and fs. */
  function Walk(r: Rules, i: nat, dest: Dest, ds: seq<Dir>, fs: seq<File>, path: string, open: set<nat>): Dest
    requires dest.Ready()
  {
    var dir := match dest.subdir
      case None => dest.dir.(subs := AddAll(dest.dir.subs, TopOf(r, i, ds, open)))
      case Some(p) => Put(dest.dir, p, Node(dest.dir, p).(files := fs, subs := ds));
    dest.(dir := dir.(files := dest.dir.files + (FilesOfAll(r, i, ds) + FilesHere(r, i, fs, path))))
  }

  /** matchRecurse as a whole. */
  function Visited(r: Rules, i: nat, dest: Dest, d: Dir, open: set<nat>): Dest
    requires dest.Ready()
  {
    WalkValid(r, i, dest, d.subs, d.files, d.info, open);
    StepUp(Walk(r, i, dest, d.subs, d.files, d.info, open))
  }

  lemma {:induction false} WalkValid(r: Rules, i: nat, dest: Dest, ds: seq<Dir>, fs: seq<File>, path: string,
      open: set<nat>)
    requires dest.Ready()
    ensures var w := Walk(r, i, dest, ds, fs, path, open);
      && w.Valid() && w.subdir == dest.subdir
      && (w.subdir.Some? ==> Node(w.dir, w.subdir.value) == Node(dest.dir, w.subdir.value).(files := fs, subs := ds))
  {
    if dest.subdir.Some? {
      NodePut(dest.dir, dest.subdir.value, Node(dest.dir, dest.subdir.value).(files := fs, subs := ds));
    }
  }

  lemma {:induction false} CreateReady(dest: Dest, p: seq<nat>, name: string, path: string)
    requires Reaches(dest.dir, p)
    ensures var c := Create(dest, p, name, path);
      c.Ready() && c.subdir.Some? &&
      Node(c.dir, c.subdir.value) == Tree(UniqueName(NamesOf(Node(dest.dir, p).subs), name), path, [], [])
  {
    var n := Node(dest.dir, p);
    var c := Create(dest, p, name, path);
    var m := n.(subs := n.subs + [Tree(UniqueName(NamesOf(n.subs), name), path, [], [])]);
    NodePut(dest.dir, p, m);
    Below(c.dir, p, |n.subs|, m);
  }

  // ---------------------------------------------------------------- the steps keep to Walk

  /** A new directory at p, filled by the visit of c, is a copy of c; then the cursor is at p again. */
  lemma {:induction false} CreateThenVisit(r: Rules, i: nat, dest: Dest, p: seq<nat>, c: Dir, open: set<nat>)
    requires Reaches(dest.dir, p) && Create(dest, p, c.name, c.info).Ready()
    ensures var n := Node(dest.dir, p);
      var copied := Put(dest.dir, p, n.(subs := Add(n.subs, c)));
      Visited(r, i, Create(dest, p, c.name, c.info), c, open) ==
      dest.(dir := copied.(files := dest.dir.files + FilesOf(r, i, c)), subdir := if p == [] then None else Some(p))
  {
    var n := Node(dest.dir, p);
    var e := Create(dest, p, c.name, c.info);
    var q, k := p + [|n.subs|], |n.subs|;
    var m := n.(subs := n.subs + [Tree(UniqueName(NamesOf(n.subs), c.name), c.info, [], [])]);
    var c' := c.(name := UniqueName(NamesOf(n.subs), c.name));
    hide UniqueName, Reaches, FilesOfAll, FilesHere, TopOf, AddAll;
    NodePut(dest.dir, p, m);
    Below(e.dir, p, k, c');
    assert m.subs[k := c'] == n.subs + [c'];
    PutPut(dest.dir, p, m, n.(subs := n.subs + [c']));
    assert q[..|q| - 1] == p;
    assert e.dir.files == dest.dir.files by { hide Node; }
    WalkValid(r, i, e, c.subs, c.files, c.info, open);
  }

  lemma {:induction false} AddAllConcat(ds: seq<Dir>, a: seq<Dir>, b: seq<Dir>)
    ensures AddAll(ds, a + b) == AddAll(AddAll(ds, a), b)
    decreases |b|
  {
    if b == [] {
      assert a + b == a;
    } else {
      assert (a + b)[..|a + b| - 1] == a + b[..|b| - 1];
      AddAllConcat(ds, a, b[..|b| - 1]);
    }
  }

  lemma {:induction false} DistinctFree(ds: seq<Dir>, c: Dir)
    requires Distinct(ds + [c])
    ensures UniqueName(NamesOf(ds), c.name) == c.name
  {
    var all := ds + [c];
    forall k | 0 <= k < |ds| ensures !Same(NamesOf(ds)[k], c.name) {
      assert all[k] == ds[k] && all[|ds|] == c;
      assert !Same(all[k].name, all[|ds|].name);
    }
  }

  lemma {:induction false} OneMore(r: Rules, i: nat, ds: seq<Dir>, c: Dir, open: set<nat>)
    ensures TopOf(r, i, ds + [c], open) == TopOf(r, i, ds, open) + TopIn(r, i, c, open)
    ensures FilesOfAll(r, i, ds + [c]) == FilesOfAll(r, i, ds) + FilesOf(r, i, c)
  {
    assert (ds + [c])[..|ds|] == ds;
    hide FilesOf, TopIn;
  }

  /** Entering and visiting the next subdirectory, whatever is open: each cursor is back. */
  lemma {:induction false} ChildStep(r: Rules, i: nat, dest: Dest, ds: seq<Dir>, c: Dir, path: string, open: set<nat>)
    requires dest.Ready() && (dest.subdir.Some? <==> i in open) && Distinct(ds + [c])
    ensures Walk(r, i, dest, ds, [], path, open).Valid() && ChildKept(r, i, dest, ds, c, path, open)
  {
    WalkValid(r, i, dest, ds, [], path, open);
    hide ChildKept, OpenBelow;
    if dest.subdir.Some? {
      OpenChild(r, i, dest, ds, c, path, open);
    } else if i in OpenBelow(r, c, open) {
      HitChild(r, i, dest, ds, c, path, open);
    } else {
      MissedChild(r, i, dest, ds, c, path, open);
    }
  }

  /** Handling one child leaves every cursor where it was, for either setting of break-on-first. */
  lemma {:induction false} CursorRestored(r: Rules, i: nat, dest: Dest, ds: seq<Dir>, c: Dir, path: string,
      open: set<nat>)
    requires dest.Ready() && (dest.subdir.Some? <==> i in open) && Distinct(ds + [c])
    ensures var w := Walk(r, i, dest, ds, [], path, open);
      && w.Valid()
      && var e := Enter(w, i in OpenBelow(r, c, open), c.name, c.info);
      e.Ready() && Visited(r, i, e, c, OpenBelow(r, c, open)).subdir == w.subdir
  {
    ChildStep(r, i, dest, ds, c, path, open);
    WalkValid(r, i, dest, ds + [c], [], path, open);
    WalkValid(r, i, dest, ds, [], path, open);
    hide Walk, Enter, OpenBelow, Visited;
  }

  ghost predicate ChildKept(r: Rules, i: nat, dest: Dest, ds: seq<Dir>, c: Dir, path: string, open: set<nat>)
    requires dest.Ready() && Walk(r, i, dest, ds, [], path, open).Valid()
  {
    var e := Enter(Walk(r, i, dest, ds, [], path, open), i in OpenBelow(r, c, open), c.name, c.info);
    && e.Ready() && (e.subdir.Some? <==> i in OpenBelow(r, c, open))
    && Visited(r, i, e, c, OpenBelow(r, c, open)) == Walk(r, i, dest, ds + [c], [], path, open)
  }

  lemma {:induction false} OpenChild(r: Rules, i: nat, dest: Dest, ds: seq<Dir>, c: Dir, path: string, open: set<nat>)
    requires dest.Ready() && dest.subdir.Some? && i in open && i in OpenBelow(r, c, open) && Distinct(ds + [c])
    requires Walk(r, i, dest, ds, [], path, open).Valid()
    ensures ChildKept(r, i, dest, ds, c, path, open)
  {
    hide UniqueName, FilesOf, FilesOfAll, FilesHere, TopOf, AddAll, Add, Put, Node, Reaches;
    hide NamesOf, Distinct, Visited, Create, OpenBelow;
    var w, p := Walk(r, i, dest, ds, [], path, open), dest.subdir.value;
    var n := Node(dest.dir, p);
    NoFiles(r, i, path);
    WalkValid(r, i, dest, ds, [], path, open);
    OneMore(r, i, ds, c, open);
    DistinctFree(ds, c);
    CreateReady(w, p, c.name, c.info);
    CreateThenVisit(r, i, w, p, c, OpenBelow(r, c, open));
    PutFiles(dest.dir, p, n.(files := [], subs := ds), n.(files := [], subs := ds + [c]), FilesOfAll(r, i, ds));
    AddFree(ds, c);
    assert FilesOfAll(r, i, ds) + [] == FilesOfAll(r, i, ds);
    assert w.dir == Put(dest.dir, p, n.(files := [], subs := ds)).(files := dest.dir.files + FilesOfAll(r, i, ds));
  }

  lemma {:induction false} AddFree(ds: seq<Dir>, c: Dir)
    requires UniqueName(NamesOf(ds), c.name) == c.name
    ensures Add(ds, c) == ds + [c]
  {
    hide UniqueName;
  }

  lemma {:induction false} HitChild(r: Rules, i: nat, dest: Dest, ds: seq<Dir>, c: Dir, path: string, open: set<nat>)
    requires dest.Ready() && dest.subdir.None? && i !in open && i in OpenBelow(r, c, open)
    requires Walk(r, i, dest, ds, [], path, open).Valid()
    ensures ChildKept(r, i, dest, ds, c, path, open)
  {
    hide UniqueName, FilesOf, FilesOfAll, FilesHere, TopOf, AddAll, Add, Put, Node, Reaches;
    hide NamesOf, Distinct, Visited, Create, OpenBelow;
    var w := Walk(r, i, dest, ds, [], path, open);
    NoFiles(r, i, path);
    OneMore(r, i, ds, c, open);
    PutRoot(w.dir, w.dir.(subs := Add(w.dir.subs, c)));
    CreateReady(w, [], c.name, c.info);
    CreateThenVisit(r, i, w, [], c, OpenBelow(r, c, open));
    AddAllConcat(dest.dir.subs, TopOf(r, i, ds, open), [c]);
    AddOne(w.dir.subs, c);
  }

  lemma {:induction false} MissedChild(r: Rules, i: nat, dest: Dest, ds: seq<Dir>, c: Dir, path: string, open: set<nat>)
    requires dest.Ready() && dest.subdir.None? && i !in open && i !in OpenBelow(r, c, open)
    requires Walk(r, i, dest, ds, [], path, open).Valid()
    ensures ChildKept(r, i, dest, ds, c, path, open)
  {
    var below := OpenBelow(r, c, open);
    OneMore(r, i, ds, c, open);
    hide FilesOfAll, FilesHere, TopOf, AddAll, OpenBelow;
    NoFiles(r, i, path);
    AddAllConcat(dest.dir.subs, TopOf(r, i, ds, open), TopOf(r, i, c.subs, below));
  }

  lemma {:induction false} NoFiles(r: Rules, i: nat, path: string)
    ensures FilesHere(r, i, [], path) == []
  {}

  lemma {:induction false} AddOne(ds: seq<Dir>, c: Dir)
    ensures AddAll(ds, [c]) == Add(ds, c)
  {
    assert AddAll(ds, [c]) == Add(AddAll(ds, []), c);
  }

  /** A change strictly inside and one of the files at the top do not get in each other's way. */
  lemma {:induction false} PutFiles(d: Dir, p: seq<nat>, x: Dir, y: Dir, more: seq<File>)
    requires p != [] && Reaches(d, p)
    ensures Reaches(Put(d, p, x).(files := d.files + more), p)
    ensures Put(Put(d, p, x).(files := d.files + more), p, y) == Put(d, p, y).(files := d.files + more)
    ensures Put(d, p, x).files == d.files
  {
    PutPut(d, p, x, y);
    hide UniqueName;
  }

  lemma {:induction false} FileStep(r: Rules, i: nat, dest: Dest, ds: seq<Dir>, fs: seq<File>, f: File, path: string,
      open: set<nat>)
    requires dest.Ready()
    ensures var w := Walk(r, i, dest, ds, fs, path, open);
      w.Valid() && TakeFile(w, i in FileHits(r, f, path), f).(fileAdded := w.fileAdded) ==
        Walk(r, i, dest, ds, fs + [f], path, open)
  {
    OneMoreFile(r, i, fs, f, path);
    WalkValid(r, i, dest, ds, fs, path, open);
    hide FilesOfAll, FilesHere, TopOf, AddAll, FileHits, Put, Node, Reaches;
    if dest.subdir.Some? {
      var p := dest.subdir.value;
      var n := Node(dest.dir, p);
      PutFiles(dest.dir, p, n.(files := fs, subs := ds), n.(files := fs + [f], subs := ds),
               FilesOfAll(r, i, ds) + FilesHere(r, i, fs, path));
    }
    assert dest.dir.files + (FilesOfAll(r, i, ds) + FilesHere(r, i, fs, path)) + [f] ==
      dest.dir.files + (FilesOfAll(r, i, ds) + (FilesHere(r, i, fs, path) + [f]));
  }

  lemma {:induction false} OneMoreFile(r: Rules, i: nat, fs: seq<File>, f: File, path: string)
    ensures FilesHere(r, i, fs + [f], path) == FilesHere(r, i, fs, path) + if i in FileHits(r, f, path) then [f] else []
  {
    assert (fs + [f])[..|fs|] == fs;
    hide FileHits;
  }

  /** Before anything is visited. */
  lemma {:induction false} WalkStart(r: Rules, i: nat, dest: Dest, path: string, open: set<nat>)
    requires dest.Ready()
    ensures Walk(r, i, dest, [], [], path, open) == dest
  {
    if dest.subdir.Some? { PutNode(dest.dir, dest.subdir.value); }
  }
}
