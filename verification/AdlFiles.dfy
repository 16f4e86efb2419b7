/** Which files an ADL search pass puts into which destination, told by the searches and the places of
    the files alone. */
module AdlFiles {

  import opened AdlCopies
  import opened AdlDestinations
  import opened AdlTree
  import opened DirectoryTree

  // ---------------------------------------------------------------- places and paths

  /** A file and the names of the directories it is in, from the top. */
  datatype Found = Found(way: seq<string>, file: File)

  /** All files in the order of the walk: subdirectories first. */
  function FilesBelow(d: Dir, way: seq<string>): seq<Found> {
    FilesBelowAll(d.subs, way) + Here(d.files, way)
  }

  function FilesBelowAll(ds: seq<Dir>, way: seq<string>): seq<Found> {
    if ds == [] then []
    else FilesBelowAll(ds[..|ds| - 1], way) + FilesBelow(ds[|ds| - 1], way + [ds[|ds| - 1].name])
  }

  function Here(files: seq<File>, way: seq<string>): seq<Found> {
    seq(|files|, k requires 0 <= k < |files| => Found(way, files[k]))
  }

  /** With a backslash for each slash. */
  function Spelled(name: string): string {
    seq(|name|, i requires 0 <= i < |name| => if name[i] == '/' then '\\' else name[i])
  }

  /** The names on the way with backslashes between them. */
  function NmdcPath(way: seq<string>, name: string): string {
    if way == [] then Spelled(name) else Spelled(way[0]) + "\\" + NmdcPath(way[1..], name)
  }

  function PathOf(way: seq<string>): string {
    if way == [] then "/" else "/" + way[0] + PathOf(way[1..])
  }

  lemma {:induction false} PathDown(way: seq<string>, name: string)
    ensures PathOf(way + [name]) == PathOf(way) + name + "/"
  {
    if way == [] {
      assert [name][1..] == [];
      assert way + [name] == [name];
    } else {
      assert (way + [name])[1..] == way[1..] + [name];
      PathDown(way[1..], name);
    }
  }

  lemma {:induction false} SpelledConcat(a: string, b: string)
    ensures Spelled(a + b) == Spelled(a) + Spelled(b)
  {}

  lemma {:induction false} BehindSlash(rest: string)
    ensures ToNmdcFile("/" + rest) == Spelled(rest)
  {}

  /** The path that searches see has a backslash between any two names. */
  lemma {:induction false} PathSeen(way: seq<string>, name: string)
    ensures ToNmdcFile(PathOf(way) + name) == NmdcPath(way, name)
  {
    if way == [] {
      BehindSlash(name);
    } else {
      var rest := PathOf(way[1..]) + name;
      PathSeen(way[1..], name);
      StartsWithSlash(way[1..]);
      var tail := rest[1..];
      assert rest == "/" + tail;
      BehindSlash(tail);
      BehindSlash(way[0] + rest);
      SpelledConcat(way[0], rest);
      SpelledConcat("/", tail);
      assert Spelled("/") == "\\";
      assert PathOf(way) + name == "/" + (way[0] + rest);
      hide Spelled, ToNmdcFile;
    }
  }

  lemma {:induction false} StartsWithSlash(way: seq<string>)
    ensures PathOf(way) != "" && PathOf(way)[0] == '/'
  {}

  // ---------------------------------------------------------------- which destination

  /** Some search for destination i takes the file; with break-on-first, no earlier one does. */
  ghost predicate ComesTo(r: Rules, i: nat, x: Found) {
    var item := AFile(x.file.name, NmdcPath(x.way, x.file.name), x.file.size);
    && x.file.name != ""
    && exists k :: 0 <= k < |r.searches| && r.searches[k].ddIndex == i && Takes(r.searches[k], item) &&
         (r.breakOnFirst ==> forall l :: 0 <= l < k ==> !Takes(r.searches[l], item))
  }

  ghost function Selected(r: Rules, i: nat, xs: seq<Found>): seq<File> {
    if xs == [] then []
    else Selected(r, i, xs[..|xs| - 1]) + if ComesTo(r, i, xs[|xs| - 1]) then [xs[|xs| - 1].file] else []
  }

  lemma {:induction false} HitExactly(r: Rules, i: nat, x: Found)
    ensures i in FileHits(r, x.file, PathOf(x.way)) <==> ComesTo(r, i, x)
  {
    var item := AFile(x.file.name, NmdcPath(x.way, x.file.name), x.file.size);
    PathSeen(x.way, x.file.name);
    forall k | 0 <= k < |r.searches| ensures Candidate(r, item, {}, k) <==> Takes(r.searches[k], item) {}
    if r.breakOnFirst { FirstIsHit(r, item, {}, i); } else { EveryWantedIsHit(r, item, {}, i); }
    hide Takes, Hits, ToNmdcFile, PathOf, NmdcPath, Candidate;
  }

  function Located(xs: seq<Found>): seq<Visit> {
    seq(|xs|, k requires 0 <= k < |xs| => Visit(xs[k].file, PathOf(xs[k].way)))
  }

  lemma {:induction false} LocatedConcat(xs: seq<Found>, ys: seq<Found>)
    ensures Located(xs + ys) == Located(xs) + Located(ys)
  {}

  lemma {:induction false} AllLocated(d: Dir, way: seq<string>)
    requires Listing(d, PathOf(way))
    ensures AllFiles(d) == Located(FilesBelow(d, way))
    decreases d, 1
  {
    forall i | 0 <= i < |d.subs| ensures Listing(d.subs[i], PathOf(way + [d.subs[i].name])) {
      PathDown(way, d.subs[i].name);
    }
    AllSubsLocated(d.subs, way);
    LocatedConcat(FilesBelowAll(d.subs, way), Here(d.files, way));
    assert Visits(d.files, d.info) == Located(Here(d.files, way));
    hide Listing, Located;
  }

  lemma {:induction false} AllSubsLocated(ds: seq<Dir>, way: seq<string>)
    requires forall i :: 0 <= i < |ds| ==> Listing(ds[i], PathOf(way + [ds[i].name]))
    ensures AllFilesOf(ds) == Located(FilesBelowAll(ds, way))
    decreases ds, 0
  {
    if ds != [] {
      var some, d := ds[..|ds| - 1], ds[|ds| - 1];
      AllSubsLocated(some, way);
      AllLocated(d, way + [d.name]);
      LocatedConcat(FilesBelowAll(some, way), FilesBelow(d, way + [d.name]));
      hide Listing, Located;
    }
  }

  lemma {:induction false} HitsSelected(r: Rules, i: nat, xs: seq<Found>)
    ensures HitBy(r, i, Located(xs)) == Selected(r, i, xs)
  {
    hide ComesTo, FileHits;
    if xs != [] {
      HitsSelected(r, i, xs[..|xs| - 1]);
      HitExactly(r, i, xs[|xs| - 1]);
      assert Located(xs)[..|xs| - 1] == Located(xs[..|xs| - 1]);
    }
  }

  /** What destination i gets in the end are exactly the files that come to it, in the order of the walk. */
  lemma {:induction false} FilesReceived(r: Rules, i: nat, root: Dir, dest: Dest)
    requires Listing(root, "/")
    ensures Filled(r, i, root, dest).files == Selected(r, i, FilesBelow(root, []))
  {
    FilesAreHits(r, i, root);
    AllLocated(root, []);
    HitsSelected(r, i, FilesBelow(root, []));
    hide Listing, Selected, HitBy, AllFiles, FilesBelow, Located, FilesOf, TopOf, AddAll;
  }

  // ---------------------------------------------------------------- inactive searches

  ghost predicate Inactive(r: Rules, i: nat) {
    forall k :: 0 <= k < |r.searches| && r.searches[k].ddIndex == i ==> !r.searches[k].isActive
  }

  lemma {:induction false} NeverHit(r: Rules, item: Item, open: set<nat>, i: nat)
    requires Inactive(r, i)
    ensures i !in Hits(r, item, open)
  {
    if r.breakOnFirst { FirstIsHit(r, item, open, i); } else { ChosenAll(r, item, 0, open, i); }
    forall k | 0 <= k < |r.searches| && r.searches[k].ddIndex == i ensures !Candidate(r, item, open, k) {}
    hide Candidate;
  }

  /** A destination whose searches are all inactive stays empty. */
  lemma {:induction false} InactiveFillsNothing(r: Rules, i: nat, root: Dir, dest: Dest)
    requires Inactive(r, i)
    ensures Filled(r, i, root, dest).files == [] && Filled(r, i, root, dest).subs == []
  {
    NoFiles(r, i, root);
    NoCopies(r, i, root.subs, {});
    hide FilesOf, TopOf;
  }

  lemma {:induction false} NoFiles(r: Rules, i: nat, d: Dir)
    requires Inactive(r, i)
    ensures FilesOf(r, i, d) == []
    decreases d, 1
  {
    NoFilesOf(r, i, d.subs);
    NoneHere(r, i, d.files, d.info);
  }

  lemma {:induction false} NoFilesOf(r: Rules, i: nat, ds: seq<Dir>)
    requires Inactive(r, i)
    ensures FilesOfAll(r, i, ds) == []
    decreases ds, 0
  {
    hide Inactive;
    if ds != [] {
      NoFilesOf(r, i, ds[..|ds| - 1]);
      NoFiles(r, i, ds[|ds| - 1]);
    }
  }

  lemma {:induction false} NoneHere(r: Rules, i: nat, files: seq<File>, path: string)
    requires Inactive(r, i)
    ensures FilesHere(r, i, files, path) == []
  {
    hide Inactive, Hits;
    if files != [] {
      var f := files[|files| - 1];
      NoneHere(r, i, files[..|files| - 1], path);
      NeverHit(r, AFile(f.name, ToNmdcFile(path + f.name), f.size), {}, i);
    }
  }

  lemma {:induction false} NoCopies(r: Rules, i: nat, ds: seq<Dir>, open: set<nat>)
    requires Inactive(r, i) && i !in open
    ensures TopOf(r, i, ds, open) == []
  {
    hide Inactive, Hits;
    if ds != [] {
      var d := ds[|ds| - 1];
      NoCopies(r, i, ds[..|ds| - 1], open);
      NeverHit(r, ADirectory(d.name), open, i);
      NoCopies(r, i, d.subs, OpenBelow(r, d, open));
    }
  }
}
