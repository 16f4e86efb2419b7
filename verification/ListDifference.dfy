/** Subtracting one file list from another (filelist/DirectoryListingDirectory.cpp, filterList and
    getHashList; filelist/DirectoryListing.cpp, listDiffImpl). */
module ListDifference {

  import opened DirectoryTree

  /** SKIP_SUBTRACT in kilobytes: directories left with less than two files lose smaller files too. */
  datatype Filter = Filter(hashes: set<nat>, skip: nat)

  // ---------------------------------------------------------------- the filter

  function KeptFiles(f: Filter, files: seq<File>): seq<File> {
    if files == [] then []
    else
      var rest, last := KeptFiles(f, files[..|files| - 1]), files[|files| - 1];
      if last.hash in f.hashes then rest else rest + [last]
  }

  function LargeFiles(limit: nat, files: seq<File>): seq<File> {
    if files == [] then []
    else
      var rest, last := LargeFiles(limit, files[..|files| - 1]), files[|files| - 1];
      if last.size < limit then rest else rest + [last]
  }

  function FilteredFiles(f: Filter, files: seq<File>): seq<File> {
    var kept := KeptFiles(f, files);
    if f.skip > 0 && |kept| < 2 then LargeFiles(f.skip * 1024, kept) else kept
  }

  predicate Empty<A>(d: Tree<A>) { d.subs == [] && d.files == [] }

  function Filtered<A>(f: Filter, d: Tree<A>): Tree<A> {
    d.(subs := FilteredSubs(f, d.subs), files := FilteredFiles(f, d.files))
  }

  /** Subdirectories that are empty afterwards are dropped. */
  function FilteredSubs<A>(f: Filter, ds: seq<Tree<A>>): seq<Tree<A>> {
    if ds == [] then []
    else
      var rest, last := FilteredSubs(f, ds[..|ds| - 1]), Filtered(f, ds[|ds| - 1]);
      if Empty(last) then rest else rest + [last]
  }

  method FilterList<A>(d: Tree<A>, f: Filter) returns (r: Tree<A>)
    ensures r == Filtered(f, d)
    decreases d, 1
  {
    hide Filtered, FilteredSubs, FilteredFiles;
    var directories := FilterDirectories(d.subs, f);
    var files := EraseContained(d.files, f);
    if f.skip > 0 && |files| < 2 {
      files := EraseSmall(files, f.skip * 1024);
    }
    FilteredParts(f, d);
    r := d.(subs := directories, files := files);
  }

  lemma {:induction false} FilteredParts<A>(f: Filter, d: Tree<A>)
    ensures Filtered(f, d) == d.(subs := FilteredSubs(f, d.subs), files := FilteredFiles(f, d.files))
    ensures FilteredFiles(f, d.files) ==
      var kept := KeptFiles(f, d.files); if f.skip > 0 && |kept| < 2 then LargeFiles(f.skip * 1024, kept) else kept
  {
    hide FilteredSubs, KeptFiles, LargeFiles;
  }

  /** Erases the subdirectories that are empty after they were filtered. */
  method FilterDirectories<A>(ds: seq<Tree<A>>, f: Filter) returns (r: seq<Tree<A>>)
    ensures r == FilteredSubs(f, ds)
    decreases ds, 0
  {
    hide Filtered;
    r := [];
    for i := 0 to |ds|
      invariant r == FilteredSubs(f, ds[..i])
    {
      assert ds[..i + 1][..i] == ds[..i];
      var sub := FilterList(ds[i], f);
      if !(sub.subs == [] && sub.files == []) {
        r := r + [sub];
      }
    }
    assert ds[..|ds|] == ds;
  }

  method EraseContained(files: seq<File>, f: Filter) returns (r: seq<File>)
    ensures r == KeptFiles(f, files)
  {
    r := [];
    for i := 0 to |files|
      invariant r == KeptFiles(f, files[..i])
    {
      assert files[..i + 1][..i] == files[..i];
      if files[i].hash !in f.hashes {
        r := r + [files[i]];
      }
    }
    assert files[..|files|] == files;
  }

  method EraseSmall(files: seq<File>, limit: nat) returns (r: seq<File>)
    ensures r == LargeFiles(limit, files)
  {
    r := [];
    for i := 0 to |files|
      invariant r == LargeFiles(limit, files[..i])
    {
      assert files[..i + 1][..i] == files[..i];
      if !(files[i].size < limit) {
        r := r + [files[i]];
      }
    }
    assert files[..|files|] == files;
  }

  // ---------------------------------------------------------------- the hashes of a list

  function Hashes<A>(d: Tree<A>): set<nat> {
    SubHashes(d.subs) + set f | f in d.files :: f.hash
  }

  function SubHashes<A>(ds: seq<Tree<A>>): set<nat> {
    if ds == [] then {} else SubHashes(ds[..|ds| - 1]) + Hashes(ds[|ds| - 1])
  }

  method GetHashList<A>(d: Tree<A>, before: set<nat>) returns (l: set<nat>)
    ensures l == before + Hashes(d)
  {
    l := before;
    for i := 0 to |d.subs|
      invariant l == before + SubHashes(d.subs[..i])
    {
      assert d.subs[..i + 1][..i] == d.subs[..i];
      l := GetHashList(d.subs[i], l);
    }
    assert d.subs[..|d.subs|] == d.subs;
    ghost var subs := l;
    for i := 0 to |d.files|
      invariant l == subs + set f | f in d.files[..i] :: f.hash
    {
      l := l + {d.files[i].hash};
    }
  }

  /** listDiffImpl for two lists that are loaded. */
  method ListDiff<A, B>(root: Tree<A>, other: Tree<B>, skip: nat) returns (r: Tree<A>)
    ensures r == Filtered(Filter(Hashes(other), skip), root)
  {
    var l := GetHashList(other, {});
    assert {} + Hashes(other) == Hashes(other);
    r := FilterList(root, Filter(l, skip));
  }

  // ---------------------------------------------------------------- what is left

  /** A file, the names of the directories it is in, and the files of the last one. */
  datatype Placed = Placed(path: seq<string>, file: File, around: seq<File>)

  function Here(files: seq<File>, around: seq<File>): seq<Placed> {
    seq(|files|, i requires 0 <= i < |files| => Placed([], files[i], around))
  }

  function Inside(name: string, ps: seq<Placed>): seq<Placed> {
    seq(|ps|, i requires 0 <= i < |ps| => Placed([name] + ps[i].path, ps[i].file, ps[i].around))
  }

  /** All files below a directory with their places, in order. */
  function Flat<A>(d: Tree<A>): seq<Placed> {
    FlatSubs(d.subs) + Here(d.files, d.files)
  }

  function FlatSubs<A>(ds: seq<Tree<A>>): seq<Placed> {
    if ds == [] then [] else FlatSubs(ds[..|ds| - 1]) + Inside(ds[|ds| - 1].name, Flat(ds[|ds| - 1]))
  }

  /** The files and their places alone. */
  function Bare(ps: seq<Placed>): seq<Placed> {
    seq(|ps|, i requires 0 <= i < |ps| => ps[i].(around := []))
  }

  /** The hash is not in the set, and the file is not a small one left alone in its directory. */
  predicate Survives(f: Filter, p: Placed) {
    && p.file.hash !in f.hashes
    && (f.skip == 0 || p.file.size >= f.skip * 1024 || |KeptFiles(f, p.around)| >= 2)
  }

  function Rest(f: Filter, ps: seq<Placed>): seq<Placed> {
    if ps == [] then []
    else
      var rest, last := Rest(f, ps[..|ps| - 1]), ps[|ps| - 1];
      if Survives(f, last) then rest + [last] else rest
  }

  lemma {:induction false} RestConcat(f: Filter, ps: seq<Placed>, qs: seq<Placed>)
    ensures Rest(f, ps + qs) == Rest(f, ps) + Rest(f, qs)
    decreases |qs|
  {
    hide Survives;
    if qs == [] {
      assert ps + qs == ps;
    } else {
      assert (ps + qs)[..|ps + qs| - 1] == ps + qs[..|qs| - 1];
      RestConcat(f, ps, qs[..|qs| - 1]);
    }
  }

  lemma {:induction false} RestInside(f: Filter, name: string, ps: seq<Placed>)
    ensures Rest(f, Inside(name, ps)) == Inside(name, Rest(f, ps))
  {
    if ps != [] {
      RestInside(f, name, ps[..|ps| - 1]);
      assert Inside(name, ps)[..|ps| - 1] == Inside(name, ps[..|ps| - 1]);
    }
  }

  lemma {:induction false} LargeAppend(limit: nat, files: seq<File>, last: File)
    ensures LargeFiles(limit, files + [last]) == LargeFiles(limit, files) + if last.size < limit then [] else [last]
  {
    assert (files + [last])[..|files|] == files;
  }

  lemma {:induction false} KeptAppend(f: Filter, files: seq<File>, last: File)
    ensures KeptFiles(f, files + [last]) == KeptFiles(f, files) + if last.hash in f.hashes then [] else [last]
  {
    assert (files + [last])[..|files|] == files;
  }

  lemma {:induction false} HereAppend(files: seq<File>, last: File, around: seq<File>)
    ensures Here(files + [last], around) == Here(files, around) + [Placed([], last, around)]
  {}

  lemma {:induction false} RestAppend(f: Filter, ps: seq<Placed>, p: Placed)
    ensures Rest(f, ps + [p]) == Rest(f, ps) + if Survives(f, p) then [p] else []
  {
    assert (ps + [p])[..|ps|] == ps;
    hide Survives;
  }

  lemma {:induction false} RestHere(f: Filter, files: seq<File>, around: seq<File>)
    ensures var kept := KeptFiles(f, files);
      Rest(f, Here(files, around)) ==
        Here(if f.skip > 0 && |KeptFiles(f, around)| < 2 then LargeFiles(f.skip * 1024, kept) else kept, around)
    decreases files
  {
    if files != [] {
      var front, last := files[..|files| - 1], files[|files| - 1];
      RestHere(f, front, around);
      HereAppend(front, last, around);
      RestAppend(f, Here(front, around), Placed([], last, around));
      KeptAppend(f, front, last);
      LargeAppend(f.skip * 1024, KeptFiles(f, front), last);
      assert files == front + [last];
      HereAppend(KeptFiles(f, front), last, around);
      HereAppend(LargeFiles(f.skip * 1024, KeptFiles(f, front)), last, around);
      hide Here, Rest, KeptFiles, LargeFiles;
    }
  }

  lemma {:induction false} BareConcat(ps: seq<Placed>, qs: seq<Placed>)
    ensures Bare(ps + qs) == Bare(ps) + Bare(qs)
  {}

  lemma {:induction false} BareInside(name: string, ps: seq<Placed>)
    ensures Bare(Inside(name, ps)) == Inside(name, Bare(ps))
  {}

  lemma {:induction false} BareHere(files: seq<File>, around: seq<File>)
    ensures Bare(Here(files, around)) == Here(files, [])
  {}

  /** The files left are exactly those whose hash is not in the set, each in its directory and in the
      old order; under a size limit small ones that would be alone in their directory go as well. */
  lemma {:induction false} ExactlyTheRest<A>(f: Filter, d: Tree<A>)
    ensures Bare(Flat(Filtered(f, d))) == Bare(Rest(f, Flat(d)))
    decreases d, 1
  {
    var left := FilteredFiles(f, d.files);
    ExactlyTheRestSubs(f, d.subs);
    RestHere(f, d.files, d.files);
    BareHere(left, left);
    BareHere(left, d.files);
    RestConcat(f, FlatSubs(d.subs), Here(d.files, d.files));
    BareConcat(Rest(f, FlatSubs(d.subs)), Rest(f, Here(d.files, d.files)));
    BareConcat(FlatSubs(FilteredSubs(f, d.subs)), Here(left, left));
    hide Bare, Rest, FlatSubs, FilteredSubs, KeptFiles, LargeFiles, Here;
  }

  lemma {:induction false} ExactlyTheRestSubs<A>(f: Filter, ds: seq<Tree<A>>)
    ensures Bare(FlatSubs(FilteredSubs(f, ds))) == Bare(Rest(f, FlatSubs(ds)))
    decreases ds, 0
  {
    if ds != [] {
      var front, last := ds[..|ds| - 1], ds[|ds| - 1];
      var left := Filtered(f, last);
      ExactlyTheRestSubs(f, front);
      ExactlyTheRest(f, last);
      RestInside(f, last.name, Flat(last));
      RestConcat(f, FlatSubs(front), Inside(last.name, Flat(last)));
      BareConcat(Rest(f, FlatSubs(front)), Rest(f, Inside(last.name, Flat(last))));
      BareInside(last.name, Rest(f, Flat(last)));
      BareInside(last.name, Flat(left));
      SubsAppend(FilteredSubs(f, front), left);
      BareConcat(FlatSubs(FilteredSubs(f, front)), Inside(left.name, Flat(left)));
      EmptyFlat(left);
      hide Bare, Rest, Flat, KeptFiles, LargeFiles, FilteredFiles;
    }
  }

  lemma {:induction false} SubsAppend<A>(ds: seq<Tree<A>>, d: Tree<A>)
    ensures FlatSubs(ds + [d]) == FlatSubs(ds) + Inside(d.name, Flat(d))
  {
    assert (ds + [d])[..|ds|] == ds;
  }

  lemma {:induction false} EmptyFlat<A>(d: Tree<A>)
    ensures Empty(d) ==> Flat(d) == []
  {}

  /** There is a file below every directory. */
  ghost predicate Fruitful<A>(d: Tree<A>)
    decreases d, 1
  {
    AllFruitful(d.subs)
  }

  ghost predicate AllFruitful<A>(ds: seq<Tree<A>>)
    decreases ds, 0
  {
    forall i :: 0 <= i < |ds| ==> Flat(ds[i]) != [] && Fruitful(ds[i])
  }

  /** No subdirectory without a file somewhere below it is left. */
  lemma {:induction false} NoEmptyDirectories<A>(f: Filter, d: Tree<A>)
    ensures Fruitful(Filtered(f, d))
    decreases d, 1
  {
    FruitfulSubs(f, d.subs);
    hide FilteredSubs, FilteredFiles, AllFruitful;
  }

  lemma {:induction false} FruitfulSubs<A>(f: Filter, ds: seq<Tree<A>>)
    ensures AllFruitful(FilteredSubs(f, ds))
    decreases ds, 0
  {
    if ds != [] {
      FruitfulSubs(f, ds[..|ds| - 1]);
      NoEmptyDirectories(f, ds[|ds| - 1]);
      NotEmptyFlat(Filtered(f, ds[|ds| - 1]));
    }
  }

  lemma {:induction false} NotEmptyFlat<A>(d: Tree<A>)
    requires Fruitful(d)
    ensures Empty(d) || Flat(d) != []
  {
    if d.subs != [] {
      assert Flat(d.subs[|d.subs| - 1]) != [];
    }
  }

  // ---------------------------------------------------------------- filtering twice

  lemma {:induction false} KeptTwice(f: Filter, g: Filter, files: seq<File>)
    ensures KeptFiles(g, KeptFiles(f, files)) == KeptFiles(Filter(f.hashes + g.hashes, f.skip), files)
    ensures |KeptFiles(g, files)| <= |files|
  {
    if files != [] { KeptTwice(f, g, files[..|files| - 1]); }
  }

  lemma {:induction false} LargeKept(g: Filter, limit: nat, files: seq<File>)
    ensures KeptFiles(g, LargeFiles(limit, files)) == LargeFiles(limit, KeptFiles(g, files))
    ensures LargeFiles(limit, LargeFiles(limit, files)) == LargeFiles(limit, files)
    ensures |LargeFiles(limit, files)| <= |files|
  {
    if files != [] { LargeKept(g, limit, files[..|files| - 1]); }
  }

  lemma {:induction false} FilesTwice(f: Filter, g: Filter, files: seq<File>)
    requires f.skip == g.skip
    ensures FilteredFiles(g, FilteredFiles(f, files)) == FilteredFiles(Filter(f.hashes + g.hashes, f.skip), files)
  {
    var kept, limit := KeptFiles(f, files), f.skip * 1024;
    KeptTwice(f, g, files);
    KeptTwice(f, g, kept);
    LargeKept(g, limit, kept);
    LargeKept(g, limit, KeptFiles(g, kept));
    hide KeptFiles, LargeFiles;
  }

  /** Subtracting two lists one after the other is subtracting both at once.  In particular a second
      pass with the same list changes nothing. */
  lemma {:induction false} FilterTwice<A>(f: Filter, g: Filter, d: Tree<A>)
    requires f.skip == g.skip
    ensures Filtered(g, Filtered(f, d)) == Filtered(Filter(f.hashes + g.hashes, f.skip), d)
    decreases d, 1
  {
    SubsTwice(f, g, d.subs);
    FilesTwice(f, g, d.files);
    hide FilteredSubs, FilteredFiles;
  }

  lemma {:induction false} SubsTwice<A>(f: Filter, g: Filter, ds: seq<Tree<A>>)
    requires f.skip == g.skip
    ensures FilteredSubs(g, FilteredSubs(f, ds)) == FilteredSubs(Filter(f.hashes + g.hashes, f.skip), ds)
    decreases ds, 0
  {
    if ds != [] {
      var front, last := ds[..|ds| - 1], ds[|ds| - 1];
      SubsTwice(f, g, front);
      FilterTwice(f, g, last);
      EmptyStays(g, Filtered(f, last));
      FilteredAppend(g, FilteredSubs(f, front), Filtered(f, last));
      hide Filtered;
    }
  }

  lemma {:induction false} FilteredAppend<A>(g: Filter, ds: seq<Tree<A>>, d: Tree<A>)
    ensures FilteredSubs(g, ds + [d]) == if Empty(Filtered(g, d)) then FilteredSubs(g, ds)
      else FilteredSubs(g, ds) + [Filtered(g, d)]
  {
    assert (ds + [d])[..|ds|] == ds;
    hide Filtered;
  }

  lemma {:induction false} EmptyStays<A>(g: Filter, d: Tree<A>)
    ensures Empty(d) ==> Empty(Filtered(g, d))
  {}

  lemma {:induction false} FilterIdempotent<A>(f: Filter, d: Tree<A>)
    ensures Filtered(f, Filtered(f, d)) == Filtered(f, d)
  {
    FilterTwice(f, f, d);
    assert Filter(f.hashes + f.hashes, f.skip) == f;
  }

  // ---------------------------------------------------------------- nothing left

  lemma {:induction false} NoRest(f: Filter, ps: seq<Placed>)
    ensures Rest(f, ps) == [] <==> forall p :: p in ps ==> !Survives(f, p)
  {
    hide Survives;
    if ps != [] {
      NoRest(f, ps[..|ps| - 1]);
      assert ps == ps[..|ps| - 1] + [ps[|ps| - 1]];
    }
  }

  /** Nothing is left exactly when no file survives. */
  lemma {:induction false} NothingLeftExactly<A>(f: Filter, d: Tree<A>)
    ensures Empty(Filtered(f, d)) <==> forall p :: p in Flat(d) ==> !Survives(f, p)
  {
    var left := Filtered(f, d);
    ExactlyTheRest(f, d);
    NoEmptyDirectories(f, d);
    EmptyFlat(left);
    NotEmptyFlat(left);
    NoRest(f, Flat(d));
    hide Filtered, Flat, Rest, Survives, Empty;
    assert |Bare(Flat(left))| == |Flat(left)| && |Bare(Rest(f, Flat(d)))| == |Rest(f, Flat(d))|;
  }

  /** The hashes are those of the files below. */
  lemma {:induction false} HashesExactly<A>(d: Tree<A>, h: nat)
    ensures h in Hashes(d) <==> exists p :: p in Flat(d) && p.file.hash == h
    decreases d, 1
  {
    SubHashesExactly(d.subs, h);
    var here := Here(d.files, d.files);
    if x :| x in d.files && x.hash == h {
      var i :| 0 <= i < |d.files| && d.files[i] == x;
      assert here[i] in Flat(d);
    }
    hide SubHashes, FlatSubs;
  }

  lemma {:induction false} SubHashesExactly<A>(ds: seq<Tree<A>>, h: nat)
    ensures h in SubHashes(ds) <==> exists p :: p in FlatSubs(ds) && p.file.hash == h
    decreases ds, 0
  {
    if ds != [] {
      var last := ds[|ds| - 1];
      SubHashesExactly(ds[..|ds| - 1], h);
      HashesExactly(last, h);
      InsideHas(last.name, Flat(last), h);
      hide Hashes, Flat, Inside;
    }
  }

  lemma {:induction false} InsideHas(name: string, ps: seq<Placed>, h: nat)
    ensures (exists p :: p in Inside(name, ps) && p.file.hash == h) <==> exists p :: p in ps && p.file.hash == h
  {
    var qs := Inside(name, ps);
    if p :| p in ps && p.file.hash == h {
      var i :| 0 <= i < |ps| && ps[i] == p;
      assert qs[i] in qs && qs[i].file.hash == h;
    }
  }

  /** So a list minus itself is empty, under any size limit; without one nothing is left exactly when
      the other list has every hash. */
  lemma {:induction false} SubtractedExactly<A, B>(d: Tree<A>, other: Tree<B>, skip: nat)
    ensures var left := Filtered(Filter(Hashes(other), skip), d);
      && (Hashes(d) <= Hashes(other) ==> Empty(left))
      && (skip == 0 && Empty(left) ==> Hashes(d) <= Hashes(other))
  {
    var f := Filter(Hashes(other), skip);
    NothingLeftExactly(f, d);
    hide Filtered, Hashes, Flat, Empty;
    forall p | p in Flat(d) ensures p.file.hash in Hashes(d) { HashesExactly(d, p.file.hash); }
    forall h | h in Hashes(d) ensures exists p :: p in Flat(d) && p.file.hash == h { HashesExactly(d, h); }
  }
}
