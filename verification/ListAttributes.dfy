/** Which attributes directories have after a document was loaded into a list where directories that exist
    are used again (filelist/ListLoader.cpp, loadDirectory and loadListing). */
module ListAttributes {

  import opened DirectoryTree
  import opened ListDocument
  import opened ListLoading
  import opened ListPaths
  import opened MergedLists
  import opened Names
  import opened PartialContent
  import opened PartialLists

  /** Some element with the name is a directory that is not incomplete. */
  ghost predicate Completed(es: seq<Element>, name: string) {
    exists i :: 0 <= i < |es| && IsDir(es[i], name) && !es[i].dir.incomplete
  }

  /** Element i is the last directory with the name. */
  ghost predicate LastGiven(es: seq<Element>, name: string, i: int) {
    0 <= i < |es| && IsDir(es[i], name) && forall j :: i < j < |es| ==> !IsDir(es[j], name)
  }

  /** Element i is the first directory with the name. */
  ghost predicate FirstGiven(es: seq<Element>, name: string, i: int) {
    0 <= i < |es| && IsDir(es[i], name) && forall j :: 0 <= j < i ==> !IsDir(es[j], name)
  }

  /** The attributes of a directory that was `was`, after the elements. */
  ghost predicate Updated(was: Info, now: Info, es: seq<Element>, name: string) {
    && now.kind == (if Completed(es, name) then NORMAL else was.kind) && now.size == was.size
    && (forall i :: LastGiven(es, name, i) ==> now.date == es[i].dir.date)
    && (!Mentions(es, name) ==> now.date == was.date)
  }

  lemma {:induction false} CompletedStep(front: seq<Element>, e: Element, name: string)
    ensures Completed(front + [e], name) <==> Completed(front, name) || (IsDir(e, name) && !e.dir.incomplete)
  {
    hide Same;
    var es := front + [e];
    assert es[|front|] == e && forall i :: 0 <= i < |front| ==> es[i] == front[i];
  }

  lemma {:induction false} LastStep(front: seq<Element>, e: Element, name: string, i: int)
    ensures LastGiven(front + [e], name, i) <==> if IsDir(e, name) then i == |front| else LastGiven(front, name, i)
  {
    hide IsDir;
    var es := front + [e];
    assert es[|front|] == e && forall i :: 0 <= i < |front| ==> es[i] == front[i];
  }

  lemma {:induction false} TouchedUpdated(x: Listing, es: seq<Element>)
    ensures Updated(x.info, Touched(x, es).info, es, x.name)
  {
    if es != [] {
      var front, e := es[..|es| - 1], es[|es| - 1];
      TouchedUpdated(x, front);
      assert es == front + [e];
      TouchedStep(x, front, e);
      CompletedStep(front, e, x.name);
      MentionsStep(front, e, x.name);
      hide IsDir, Touched, Completed, Mentions, LastGiven;
      forall i ensures LastGiven(es, x.name, i) <==>
        if IsDir(e, x.name) then i == |front| else LastGiven(front, x.name, i)
      {
        LastStep(front, e, x.name, i);
      }
    } else {
      hide IsDir;
    }
  }

  lemma {:induction false} SubUpdated(x: Listing, es: seq<Element>)
    ensures MergedSub(x, es).name == x.name && Updated(x.info, MergedSub(x, es).info, es, x.name)
  {
    TouchedUpdated(x, es);
    MergedSubName(x, es);
    if !Mentions(es, x.name) { NothingSaid(es, x); }
    hide Touched, Updated, ContentOf, FilesIn, Fresh, Mentions;
  }

  /** A subdirectory that was there is complete afterwards exactly if it was complete or the document gives
      it as not incomplete; its date is the last one given, if there is one. */
  lemma {:induction false} OldUpdated(d: Listing, es: seq<Element>, k: nat)
    requires Apart(d) && AllValid(es) && k < |d.subs|
    ensures var r := LoadAll(d, es, true).0;
      k < |r.subs| && r.subs[k].name == d.subs[k].name && Updated(d.subs[k].info, r.subs[k].info, es, d.subs[k].name)
  {
    Merges(d, es);
    SubUpdated(d.subs[k], es);
    hide MergedSub, LoadAll, Apart, AllValid, Updated;
  }

  // ---------------------------------------------------------------- new directories

  /** The attributes of a directory that is created for the element. */
  ghost predicate AsGiven(a: DirAttributes, now: Info) {
    && now.size == a.size && now.date == a.date
    && now.kind == if !a.incomplete then NORMAL else if a.directories > 0 then INCOMPLETE_CHILD else INCOMPLETE_NOCHILD
  }

  lemma {:induction false} FreshFirst(ds: seq<Listing>, es: seq<Element>, m: nat) returns (i: nat)
    requires Distinct(ds) && m < |Fresh(es, ds)|
    ensures FirstGiven(es, Fresh(es, ds)[m].name, i) && Fresh(es, ds)[m] == NewDirectory(es[i].dir)
    ensures Fresh(es, ds)[m].name == es[i].dir.name && AsGiven(es[i].dir, Fresh(es, ds)[m].info)
    decreases |es|
  {
    var front, e := es[..|es| - 1], es[|es| - 1];
    FreshStep(front, e, ds);
    assert es == front + [e];
    if m < |Fresh(front, ds)| {
      i := FreshFirst(ds, front, m);
      hide IsDir, HasSub;
    } else {
      i := |front|;
      FreshNames(front, ds, e.dir.name);
      HasEither(ds, Fresh(front, ds), front, e);
      hide Fresh, HasSub, Distinct;
    }
  }

  /** A name that no directory has was not given before. */
  lemma {:induction false} HasEither(ds: seq<Listing>, rest: seq<Listing>, front: seq<Element>, e: Element)
    requires e.DirElement? && !HasSub(ds + rest, e.dir.name)
    requires HasSub(ds + rest, e.dir.name) <==> HasSub(ds, e.dir.name) || Mentions(front, e.dir.name)
    ensures IsDir(e, e.dir.name) && forall j :: 0 <= j < |front| ==> !IsDir(front[j], e.dir.name)
  {
    hide HasSub;
  }

  /** A subdirectory that was not there has the attributes of the first element with its name, updated by
      all of them. */
  lemma {:induction false} NewUpdated(d: Listing, es: seq<Element>, k: nat) returns (i: nat, first: Info)
    requires Apart(d) && AllValid(es) && |d.subs| <= k < |LoadAll(d, es, true).0.subs|
    ensures var x := LoadAll(d, es, true).0.subs[k];
      FirstGiven(es, x.name, i) && AsGiven(es[i].dir, first) && Updated(first, x.info, es, x.name)
  {
    Merges(d, es);
    var all := d.subs + Fresh(es, d.subs);
    assert Distinct(d.subs);
    i := FreshFirst(d.subs, es, k - |d.subs|);
    first := all[k].info;
    SubUpdated(all[k], es);
    hide MergedSub, LoadAll, Apart, AllValid, Updated, Fresh, AsGiven, FirstGiven;
  }

  // ---------------------------------------------------------------- names that are refused

  /** A file or directory is refused for its name exactly if that is empty, one of the names of the directory
      itself and the one around, or has a slash in it. */
  lemma {:induction false} NameRefused(d: Listing, e: Element, updating: bool)
    requires e.DirElement? ==> e.content == []
    ensures var name := if e.FileElement? then e.file.name else e.dir.name;
      LoadElement(d, e, updating).1 == BadName <==>
        name == "" || name == "." || name == ".." || exists i :: 0 <= i < |name| && name[i] == '/'
  {
    hide FindSub;
    if e.DirElement? { assert LoadAll(Target(d, e.dir).1, [], updating).1 == Fine; }
  }

  // ---------------------------------------------------------------- partial lists

  /** After a partial load the base directory is complete and has the date of the document; a
      subdirectory it had, and that was not cleared, is updated. */
  lemma {:induction false} BaseUpdated(root: Listing, base: string, b: string, date: nat, es: seq<Element>, k: nat)
    requires WellNamed(root) && IsAdcDirectoryPath(base) && Same(b, base) && AllValid(es)
    ensures var r, p := LoadPartial(root, base, b, date, es), Create(root, Tokens(base)).1;
      && Reaches(r.0.root, p)
      && var now, was := Node(r.0.root, p), BaseFor(root, base);
      && now.info.kind == NORMAL && now.info.date == date
      && (k < |was.subs| ==>
        k < |now.subs| && now.subs[k].name == was.subs[k].name &&
        Updated(was.subs[k].info, now.subs[k].info, es, was.subs[k].name))
  {
    var was := BaseFor(root, base);
    PartialLoadContent(root, base, b, date, es);
    BaseApart(root, base);
    if k < |was.subs| { SubUpdated(was.subs[k], es); }
    hide MergedSub, LoadPartial, AllValid, Updated, BaseFor, Create, Tokens, Fresh, FilesIn;
  }
}
