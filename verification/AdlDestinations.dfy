/** The destination directories of an ADL search pass: which there are, and which of them come to the
    list in the end (modules/ADLSearch.cpp, PrepareDestinationDirectories and
    FinalizeDestinationDirectories). */
module AdlDestinations {

  import opened AdlSteps
  import opened AdlTree
  import opened DirectoryTree
  import opened Names
  import opened Options

  function Destination(root: Dir, name: string): Dest {
    Dest(name, Tree(Title(root, name), "/", [], []), None, false)
  }

  function Title(root: Dir, name: string): string {
    UniqueName(NamesOf(root.subs), "<<<" + name + ">>>")
  }

  /** Empty destinations with different names; each search has the one it names, the default one if
      it names none; and each but the default one has the name that some search gives it. */
  ghost predicate Assigned(before: seq<Search>, after: seq<Search>, destDirs: seq<Dest>, root: Dir) {
    && |after| == |before| && |destDirs| > 0 && destDirs[0].name == "ADLSearch"
    && (forall i :: 0 <= i < |destDirs| ==> destDirs[i] == Destination(root, destDirs[i].name))
    && (forall i, j :: 0 <= i < j < |destDirs| ==> !Same(destDirs[j].name, destDirs[i].name))
    && (forall k :: 0 <= k < |after| ==> Targets(before[k], after[k], destDirs))
    && (forall i :: 1 <= i < |destDirs| ==> NamedBySearch(before, after, i, destDirs[i].name))
  }

  ghost predicate Targets(before: Search, after: Search, destDirs: seq<Dest>) {
    && after == before.(ddIndex := after.ddIndex) && after.ddIndex < |destDirs|
    && if before.destDir == "" then after.ddIndex == 0 else Same(before.destDir, destDirs[after.ddIndex].name)
  }

  ghost predicate NamedBySearch(before: seq<Search>, after: seq<Search>, i: nat, name: string)
    requires |before| == |after|
  {
    exists k :: 0 <= k < |after| && after[k].ddIndex == i && before[k].destDir == name
  }

  lemma {:induction false} AssignedStart(destDirs: seq<Dest>, root: Dir)
    requires destDirs == [Destination(root, "ADLSearch")]
    ensures Assigned([], [], destDirs, root)
  {
    hide Title;
  }

  lemma {:induction false} AssignedStep(before: seq<Search>, after: seq<Search>, destDirs: seq<Dest>, root: Dir,
                                        s: Search, index: nat)
    requires Assigned(before, after, destDirs, root) && index <= |destDirs|
    requires if s.destDir == "" then index == 0 else
      && (index < |destDirs| ==> Same(s.destDir, destDirs[index].name))
      && forall i :: 0 <= i < index ==> !Same(s.destDir, destDirs[i].name)
    ensures Assigned(before + [s], after + [s.(ddIndex := index)],
                     if index < |destDirs| then destDirs else destDirs + [Destination(root, s.destDir)], root)
  {
    hide Title, Fold, Targets, NamedBySearch;
    var dirs := if index < |destDirs| then destDirs else destDirs + [Destination(root, s.destDir)];
    var before', after' := before + [s], after + [s.(ddIndex := index)];
    forall k | 0 <= k < |after'| ensures Targets(before'[k], after'[k], dirs) {
      if k < |after| {
        assert Targets(before[k], after[k], destDirs);
        StillTargets(before[k], after[k], destDirs, dirs);
      } else {
        NowTargets(s, index, dirs);
      }
    }
    forall i | 1 <= i < |dirs| ensures NamedBySearch(before', after', i, dirs[i].name) {
      if i < |destDirs| {
        assert NamedBySearch(before, after, i, destDirs[i].name);
        StillNamed(before, after, s, index, i, dirs[i].name);
      } else {
        NowNamed(before, after, s, i);
      }
    }
  }

  lemma {:induction false} StillTargets(before: Search, after: Search, destDirs: seq<Dest>, dirs: seq<Dest>)
    requires Targets(before, after, destDirs) && destDirs <= dirs
    ensures Targets(before, after, dirs)
  {}

  lemma {:induction false} NowTargets(s: Search, index: nat, dirs: seq<Dest>)
    requires index < |dirs| && if s.destDir == "" then index == 0 else Same(s.destDir, dirs[index].name)
    ensures Targets(s, s.(ddIndex := index), dirs)
  {}

  lemma {:induction false} StillNamed(before: seq<Search>, after: seq<Search>, s: Search, index: nat, i: nat,
      name: string)
    requires |before| == |after| && NamedBySearch(before, after, i, name)
    ensures NamedBySearch(before + [s], after + [s.(ddIndex := index)], i, name)
  {
    var k :| 0 <= k < |after| && after[k].ddIndex == i && before[k].destDir == name;
    assert (after + [s.(ddIndex := index)])[k].ddIndex == i;
  }

  lemma {:induction false} NowNamed(before: seq<Search>, after: seq<Search>, s: Search, i: nat)
    requires |before| == |after|
    ensures NamedBySearch(before + [s], after + [s.(ddIndex := i)], i, s.destDir)
  {
    assert (after + [s.(ddIndex := i)])[|after|].ddIndex == i;
  }

  /** What a destination has in the end. */
  function Filled(r: Rules, i: nat, root: Dir, dest: Dest): Dir {
    dest.dir.(files := FilesOf(r, i, root), subs := AddAll([], TopOf(r, i, root.subs, {})))
  }

  function AllFilled(r: Rules, root: Dir, destDirs: seq<Dest>): seq<Dir> {
    seq(|destDirs|, i requires 0 <= i < |destDirs| => Filled(r, i, root, destDirs[i]))
  }

  lemma {:induction false} Fit(before: seq<Search>, after: seq<Search>, destDirs: seq<Dest>, root: Dir)
    requires Assigned(before, after, destDirs, root)
    ensures AllReady(destDirs) && OpenOf(destDirs) == {}
    ensures forall k :: 0 <= k < |after| ==> after[k].ddIndex < |destDirs|
  {
    forall k | 0 <= k < |after| ensures after[k].ddIndex < |destDirs| {
      assert Targets(before[k], after[k], destDirs);
    }
  }

  lemma {:induction false} RootVisited(r: Rules, destDirs: seq<Dest>, now: seq<Dest>, root: Dir)
    requires AllReady(destDirs) && AllVisited(r, destDirs, now, root) && OpenOf(destDirs) == {}
    requires forall i :: 0 <= i < |destDirs| ==> destDirs[i].dir.files == [] && destDirs[i].dir.subs == []
    ensures DirsOf(now) == AllFilled(r, root, destDirs)
  {
    hide FilesOfAll, FilesHere, TopOf, AddAll;
    forall i | 0 <= i < |now| ensures now[i].dir == Filled(r, i, root, destDirs[i]) {
      assert i !in OpenOf(destDirs);
      assert now[i].Core() == Visited(r, i, destDirs[i].Core(), root, {});
    }
  }

  function DirsOf(dests: seq<Dest>): seq<Dir> {
    seq(|dests|, i requires 0 <= i < |dests| => dests[i].dir)
  }

  /** The directories that go into the list: those with content, except the one called Discard. */
  function Kept(dirs: seq<Dir>): seq<Dir> {
    if dirs == [] then []
    else
      var kept, d := Kept(dirs[..|dirs| - 1]), dirs[|dirs| - 1];
      if (d.files == [] && d.subs == []) || Same(d.name, "<<<Discard>>>") then kept else kept + [d]
  }

  /** Adds the directories whose names are free. */
  function EmplaceAll(ds: seq<Dir>, news: seq<Dir>): seq<Dir> {
    if news == [] then ds
    else
      var all, d := EmplaceAll(ds, news[..|news| - 1]), news[|news| - 1];
      if Taken(NamesOf(all), d.name) then all else all + [d]
  }

  lemma {:induction false} KeptStep(ds: seq<Dir>, dests: seq<Dest>, dest: Dest)
    ensures Kept(DirsOf(dests + [dest])) ==
      if (dest.dir.files == [] && dest.dir.subs == []) || Same(dest.dir.name, "<<<Discard>>>") then Kept(DirsOf(dests))
      else Kept(DirsOf(dests)) + [dest.dir]
    ensures EmplaceAll(ds, Kept(DirsOf(dests)) + [dest.dir]) ==
      var all := EmplaceAll(ds, Kept(DirsOf(dests)));
      if Taken(NamesOf(all), dest.dir.name) then all else all + [dest.dir]
  {
    hide Taken, Same, NamesOf;
    assert DirsOf(dests + [dest]) == DirsOf(dests) + [dest.dir];
    assert (DirsOf(dests) + [dest.dir])[..|dests|] == DirsOf(dests);
    assert (Kept(DirsOf(dests)) + [dest.dir])[..|Kept(DirsOf(dests))|] == Kept(DirsOf(dests));
  }

  // ---------------------------------------------------------------- the names of the destinations

  lemma {:induction false} Quoted(a: string, b: string)
    ensures Same("<<<" + a + ">>>", "<<<" + b + ">>>") <==> Same(a, b)
  {
    FoldQuoted(a);
    FoldQuoted(b);
    var s, t := Fold("<<<" + a + ">>>"), Fold("<<<" + b + ">>>");
    assert s[3..|s| - 3] == Fold(a) && t[3..|t| - 3] == Fold(b);
  }

  lemma {:induction false} FoldQuoted(a: string)
    ensures Fold("<<<" + a + ">>>") == "<<<" + Fold(a) + ">>>"
  {
    FoldConcat("<<<", a);
    FoldConcat("<<<" + a, ">>>");
    assert Fold("<<<") == "<<<" && Fold(">>>") == ">>>";
  }

  /** A numbered name ends with a parenthesis and no quoted one does. */
  lemma {:induction false} NumberedNotQuoted(a: string, n: nat, b: string)
    ensures !Same(Numbered(a, n), "<<<" + b + ">>>")
  {
    FoldNumbered(a, n);
    FoldQuoted(b);
    var s, t := Fold(Numbered(a, n)), Fold("<<<" + b + ">>>");
    assert s[|s| - 1] == ')' && t[|t| - 1] == '>';
  }

  /** Destinations whose names differ get directories whose names differ. */
  lemma {:induction false} TitlesDiffer(root: Dir, a: string, b: string)
    requires !Same(a, b)
    ensures !Same(Title(root, a), Title(root, b))
  {
    var names, qa, qb := NamesOf(root.subs), "<<<" + a + ">>>", "<<<" + b + ">>>";
    var ta, tb := Title(root, a), Title(root, b);
    Quoted(a, b);
    hide Fold, Numbered, Taken, FirstFree;
    if ta == qa {
      if tb != qb {
        var n: int :| 1 <= n && tb == Numbered(qb, n);
        NumberedNotQuoted(qb, n, a);
      }
    } else {
      var m: int :| 1 <= m && ta == Numbered(qa, m);
      if tb == qb {
        NumberedNotQuoted(qa, m, b);
      } else {
        var n: int :| 1 <= n && tb == Numbered(qb, n);
        NumberedDiffer(qa, m, qb, n);
      }
    }
  }

  lemma {:induction false} NumberedDiffer(a: string, m: nat, b: string, n: nat)
    requires !Same(a, b)
    ensures !Same(Numbered(a, m), Numbered(b, n))
  {
    if Same(Numbered(a, m), Numbered(b, n)) { NumberedInjective(a, m, b, n); }
  }

  /** A destination is thrown away exactly when it is called Discard and the list had no directory
      with the quoted name: otherwise its directory is numbered and stays. */
  lemma {:induction false} DiscardedExactly(root: Dir, name: string)
    ensures Same(Title(root, name), "<<<Discard>>>") <==>
      Same(name, "Discard") && !Taken(NamesOf(root.subs), "<<<Discard>>>")
  {
    var q := "<<<" + name + ">>>";
    assert "<<<" + "Discard" + ">>>" == "<<<Discard>>>";
    Quoted(name, "Discard");
    hide Fold, Numbered, FirstFree;
    assert Same(q, "<<<Discard>>>") ==> (Taken(NamesOf(root.subs), q) <==> Taken(NamesOf(root.subs), "<<<Discard>>>"));
    if Title(root, name) != q {
      var n: int :| 1 <= n && Title(root, name) == Numbered(q, n);
      NumberedNotQuoted(q, n, "Discard");
    }
  }

  /** So try_emplace never finds the key there, and no destination is lost. */
  lemma {:induction false} NoneLost(before: seq<Search>, after: seq<Search>, r: Rules, destDirs: seq<Dest>, root: Dir)
    requires Assigned(before, after, destDirs, root)
    ensures var kept := Kept(AllFilled(r, root, destDirs)); EmplaceAll(root.subs, kept) == root.subs + kept
  {
    var dirs := AllFilled(r, root, destDirs);
    forall i, j | 0 <= i < j < |dirs| ensures !Same(dirs[i].name, dirs[j].name) {
      assert !Same(destDirs[j].name, destDirs[i].name);
      TitlesDiffer(root, destDirs[i].name, destDirs[j].name);
      assert destDirs[i] == Destination(root, destDirs[i].name) && destDirs[j] == Destination(root, destDirs[j].name);
    }
    forall i | 0 <= i < |dirs| ensures !Taken(NamesOf(root.subs), dirs[i].name) {
      assert destDirs[i] == Destination(root, destDirs[i].name);
    }
    hide AllFilled;
    KeptApart(root.subs, dirs);
    EmplaceApart(root.subs, Kept(dirs));
  }

  /** Names that differ from each other and from those in ds. */
  ghost predicate Apart(ds: seq<Dir>, news: seq<Dir>) {
    && (forall i :: 0 <= i < |news| ==> !Taken(NamesOf(ds), news[i].name))
    && forall i, j :: 0 <= i < j < |news| ==> !Same(news[i].name, news[j].name)
  }

  lemma {:induction false} KeptApart(ds: seq<Dir>, dirs: seq<Dir>)
    requires Apart(ds, dirs)
    ensures Apart(ds, Kept(dirs)) && forall d :: d in Kept(dirs) ==> d in dirs
  {
    hide Same, Taken, NamesOf;
    if dirs != [] {
      var kept, d := Kept(dirs[..|dirs| - 1]), dirs[|dirs| - 1];
      KeptApart(ds, dirs[..|dirs| - 1]);
      forall i | 0 <= i < |kept| ensures !Same(kept[i].name, d.name) {
        assert kept[i] in dirs[..|dirs| - 1];
        var j :| 0 <= j < |dirs| - 1 && dirs[j] == kept[i];
      }
    }
  }

  lemma {:induction false} EmplaceApart(ds: seq<Dir>, news: seq<Dir>)
    requires Apart(ds, news)
    ensures EmplaceAll(ds, news) == ds + news
  {
    if news != [] {
      var some, d := news[..|news| - 1], news[|news| - 1];
      EmplaceApart(ds, some);
      hide Fold;
      forall i | 0 <= i < |ds + some| ensures !Same(NamesOf(ds + some)[i], d.name) {
        if i < |ds| {
          assert NamesOf(ds)[i] == ds[i].name && !Taken(NamesOf(ds), news[|news| - 1].name);
        } else {
          assert !Same(news[i - |ds|].name, news[|news| - 1].name);
        }
      }
      assert news == some + [d];
    }
  }

  // ---------------------------------------------------------------- what comes to the list

  lemma {:induction false} KeptMember(dirs: seq<Dir>, d: Dir)
    ensures d in Kept(dirs) <==> d in dirs && (d.files != [] || d.subs != []) && !Same(d.name, "<<<Discard>>>")
  {
    hide Same;
    if dirs != [] {
      KeptMember(dirs[..|dirs| - 1], d);
      assert dirs == dirs[..|dirs| - 1] + [dirs[|dirs| - 1]];
    }
  }

  ghost predicate Rising(ks: seq<nat>, n: nat) {
    (forall a :: 0 <= a < |ks| ==> ks[a] < n) && forall a, b :: 0 <= a < b < |ks| ==> ks[a] < ks[b]
  }

  /** These are the places in dirs of what comes to the list. */
  ghost predicate PlacesIn(kept: seq<Dir>, dirs: seq<Dir>, ks: seq<nat>) {
    && |ks| == |kept| && Rising(ks, |dirs|)
    && forall a :: 0 <= a < |ks| ==> kept[a] == dirs[ks[a]]
  }

  lemma {:induction false} MorePlaces(kept: seq<Dir>, dirs: seq<Dir>, ks: seq<nat>, d: Dir)
    requires PlacesIn(kept, dirs, ks)
    ensures PlacesIn(kept, dirs + [d], ks) && PlacesIn(kept + [d], dirs + [d], ks + [|dirs|])
  {}

  /** The destinations come to the list in their order. */
  lemma {:induction false} KeptInOrder(dirs: seq<Dir>) returns (ks: seq<nat>)
    ensures PlacesIn(Kept(dirs), dirs, ks)
  {
    ks := [];
    if dirs != [] {
      var front, d := dirs[..|dirs| - 1], dirs[|dirs| - 1];
      ks := KeptInOrder(front);
      MorePlaces(Kept(front), front, ks, d);
      assert dirs == front + [d];
      hide Same, PlacesIn;
      if !((d.files == [] && d.subs == []) || Same(d.name, "<<<Discard>>>")) { ks := ks + [|front|]; }
    }
  }

  /** A destination comes to the list exactly if something is in it and it is not thrown away; it is called
      by the quoted name, with a number where that is taken. */
  lemma {:induction false} ListedExactly(before: seq<Search>, after: seq<Search>, r: Rules, destDirs: seq<Dest>,
      root: Dir, i: nat)
    requires Assigned(before, after, destDirs, root) && i < |destDirs|
    ensures var d, name := Filled(r, i, root, destDirs[i]), destDirs[i].name;
      && d.info == "/"
      && (d in Kept(AllFilled(r, root, destDirs)) <==>
        && (d.files != [] || d.subs != [])
        && !(Same(name, "Discard") && !Taken(NamesOf(root.subs), "<<<Discard>>>")))
      && (!Taken(NamesOf(root.subs), "<<<" + name + ">>>") ==> d.name == "<<<" + name + ">>>")
      && (Taken(NamesOf(root.subs), "<<<" + name + ">>>") ==>
        exists n :: 1 <= n && d.name == Numbered("<<<" + name + ">>>", n))
  {
    var dirs, name := AllFilled(r, root, destDirs), destDirs[i].name;
    assert destDirs[i] == Destination(root, name);
    assert dirs[i] == Filled(r, i, root, destDirs[i]) && dirs[i] in dirs;
    KeptMember(dirs, dirs[i]);
    DiscardedExactly(root, name);
    hide Same, Taken, Numbered, Kept, FilesOf, TopOf, AddAll;
  }
}
