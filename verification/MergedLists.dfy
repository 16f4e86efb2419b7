/** What a document adds to a directory when directories that exist are used again
    (filelist/ListLoader.cpp, loadDirectory with `updating`): repeated directories become one. */
module MergedLists {

  import opened DirectoryTree
  import opened ListDocument
  import opened ListPaths
  import opened Names

  // ---------------------------------------------------------------- the meaning

  predicate IsDir(e: Element, name: string) { e.DirElement? && Same(e.dir.name, name) }

  predicate Mentions(es: seq<Element>, name: string) {
    exists i :: 0 <= i < |es| && IsDir(es[i], name)
  }

  /** Everything the elements say about the directory with this name, in order. */
  function ContentOf(es: seq<Element>, name: string): seq<Element> {
    if es == [] then []
    else
      var e := es[|es| - 1];
      ContentOf(es[..|es| - 1], name) + if IsDir(e, name) then e.content else []
  }

  /** The attributes of a directory after all elements with its name. */
  function Touched(d: Listing, es: seq<Element>): Listing {
    if es == [] then d
    else
      var before, e := Touched(d, es[..|es| - 1]), es[|es| - 1];
      if IsDir(e, d.name) then Refreshed(before, e.dir) else before
  }

  predicate HasSub(ds: seq<Listing>, name: string) {
    exists i :: 0 <= i < |ds| && Same(ds[i].name, name)
  }

  /** A new directory for the first element with each name that is not there. */
  function Fresh(es: seq<Element>, ds: seq<Listing>): seq<Listing> {
    if es == [] then []
    else
      var rest, e := Fresh(es[..|es| - 1], ds), es[|es| - 1];
      if e.DirElement? && !HasSub(ds + rest, e.dir.name) then rest + [NewDirectory(e.dir)] else rest
  }

  function Size(es: seq<Element>): nat
    decreases es, 0
  {
    if es == [] then 0 else Size(es[..|es| - 1]) + SizeOf(es[|es| - 1])
  }

  function SizeOf(e: Element): nat
    decreases e, 1
  {
    if e.DirElement? then 1 + Size(e.content) else 1
  }

  /** All files are added; each directory, old or new, gets all the content under its name. */
  function Merged(d: Listing, es: seq<Element>): Listing
    decreases Size(es), 1
  {
    var all := d.subs + Fresh(es, d.subs);
    d.(files := d.files + FilesIn(es), subs := seq(|all|, k requires 0 <= k < |all| => MergedSub(all[k], es)))
  }

  function MergedSub(d: Listing, es: seq<Element>): Listing
    decreases Size(es), 0
  {
    if !Mentions(es, d.name) then d
    else
      ContentSmaller(es, d.name);
      Merged(Touched(d, es), ContentOf(es, d.name))
  }

  lemma {:induction false} SizeConcat(a: seq<Element>, b: seq<Element>)
    ensures Size(a + b) == Size(a) + Size(b)
    decreases |b|
  {
    if b == [] {
      assert a + b == a;
    } else {
      assert (a + b)[..|a + b| - 1] == a + b[..|b| - 1];
      SizeConcat(a, b[..|b| - 1]);
    }
    hide SizeOf;
  }

  lemma {:induction false} ContentSmaller(es: seq<Element>, name: string)
    ensures Size(ContentOf(es, name)) <= Size(es) && (Mentions(es, name) ==> Size(ContentOf(es, name)) < Size(es))
  {
    if es != [] {
      var front, e := es[..|es| - 1], es[|es| - 1];
      ContentSmaller(front, name);
      SizeConcat(ContentOf(front, name), if IsDir(e, name) then e.content else []);
      MentionsStep(front, e, name);
      assert es == front + [e];
      hide Same, Mentions;
    }
  }

  lemma {:induction false} MentionsStep(front: seq<Element>, e: Element, name: string)
    ensures Mentions(front + [e], name) <==> Mentions(front, name) || IsDir(e, name)
  {
    var es := front + [e];
    hide IsDir;
    assert es[|front|] == e && forall i :: 0 <= i < |front| ==> es[i] == front[i];
  }

  // ---------------------------------------------------------------- loading twice

  ghost predicate AllValid(es: seq<Element>)
    decreases es, 0
  {
    forall i :: 0 <= i < |es| ==> ValidElement(es[i])
  }

  ghost predicate ValidElement(e: Element)
    decreases e, 1
  {
    match e
    case FileElement(a) => ValidName(a.name)
    case DirElement(a, _, content) => ValidName(a.name) && AllValid(content)
  }

  lemma {:induction false} LoadConcat(d: Listing, a: seq<Element>, b: seq<Element>, updating: bool)
    ensures var r := LoadAll(d, a, updating);
      LoadAll(d, a + b, updating) == if r.1 != Fine then r else LoadAll(r.0, b, updating)
    decreases |b|
  {
    hide LoadElement;
    if b == [] {
      assert a + b == a;
    } else {
      assert (a + b)[..|a + b| - 1] == a + b[..|b| - 1];
      LoadConcat(d, a, b[..|b| - 1], updating);
    }
  }

  lemma {:induction false} LoadOne(d: Listing, front: seq<Element>, e: Element, updating: bool)
    ensures var r := LoadAll(d, front, updating);
      LoadAll(d, front + [e], updating) == if r.1 != Fine then r else LoadElement(r.0, e, updating)
  {
    hide LoadElement;
    assert (front + [e])[..|front|] == front;
  }

  /** Loading content leaves the attributes of a directory alone. */
  lemma {:induction false} InfoAside(d: Listing, info: Info, es: seq<Element>, updating: bool)
    ensures var r := LoadAll(d, es, updating);
      r.0.info == d.info && r.0.name == d.name && LoadAll(d.(info := info), es, updating) == (r.0.(info := info), r.1)
    decreases |es|
  {
    if es != [] {
      InfoAside(d, info, es[..|es| - 1], updating);
    }
    hide LoadAll, FindSub, ValidName;
  }

  // ---------------------------------------------------------------- one more element

  lemma {:induction false} ContentStep(front: seq<Element>, e: Element, name: string)
    ensures ContentOf(front + [e], name) == ContentOf(front, name) + if IsDir(e, name) then e.content else []
  {
    assert (front + [e])[..|front|] == front;
    hide IsDir;
  }

  lemma {:induction false} TouchedStep(d: Listing, front: seq<Element>, e: Element)
    ensures Touched(d, front + [e]) == if IsDir(e, d.name) then Refreshed(Touched(d, front), e.dir)
      else Touched(d, front)
  {
    assert (front + [e])[..|front|] == front;
    hide IsDir;
  }

  lemma {:induction false} TouchedKeeps(d: Listing, es: seq<Element>)
    ensures Touched(d, es) == d.(info := Touched(d, es).info)
  {
    if es != [] { TouchedKeeps(d, es[..|es| - 1]); }
    hide IsDir;
  }

  lemma {:induction false} FreshStep(front: seq<Element>, e: Element, ds: seq<Listing>)
    ensures var rest := Fresh(front, ds);
      Fresh(front + [e], ds) == if e.DirElement? && !HasSub(ds + rest, e.dir.name) then rest + [NewDirectory(e.dir)]
        else rest
  {
    assert (front + [e])[..|front|] == front;
    hide HasSub;
  }

  lemma {:induction false} NothingSaid(es: seq<Element>, d: Listing)
    requires !Mentions(es, d.name)
    ensures ContentOf(es, d.name) == [] && Touched(d, es) == d
  {
    if es != [] {
      var front, e := es[..|es| - 1], es[|es| - 1];
      MentionsStep(front, e, d.name);
      assert es == front + [e];
      NothingSaid(front, d);
    }
    hide IsDir;
  }

  lemma {:induction false} SubUnmentioned(d: Listing, front: seq<Element>, e: Element)
    requires !IsDir(e, d.name)
    ensures MergedSub(d, front + [e]) == MergedSub(d, front)
  {
    MentionsStep(front, e, d.name);
    ContentStep(front, e, d.name);
    TouchedStep(d, front, e);
    hide IsDir, Mentions, ContentOf, Touched, Merged;
    assert ContentOf(front + [e], d.name) == ContentOf(front, d.name);
  }

  lemma {:induction false} MergedSubName(d: Listing, es: seq<Element>)
    ensures MergedSub(d, es).name == d.name
  {
    TouchedKeeps(d, es);
    hide Mentions, ContentOf, Touched, FilesIn, Fresh;
  }

  // ---------------------------------------------------------------- names

  /** Different names all the way down. */
  ghost predicate Apart(d: Listing) {
    Distinct(d.subs) && forall i :: 0 <= i < |d.subs| ==> Apart(d.subs[i])
  }

  lemma {:induction false} FindByNames(a: seq<Listing>, b: seq<Listing>, name: string)
    requires |a| == |b| && forall i :: 0 <= i < |a| ==> a[i].name == b[i].name
    ensures FindSub(a, name) == FindSub(b, name)
  {
    hide Same;
    if a != [] {
      assert a[1..] == a[1..] && forall i :: 0 <= i < |a[1..]| ==> a[1..][i] == a[i + 1] && b[1..][i] == b[i + 1];
      FindByNames(a[1..], b[1..], name);
    }
  }

  lemma {:induction false} FoundHas(ds: seq<Listing>, name: string)
    ensures HasSub(ds, name) <==> FindSub(ds, name) < |ds|
  {
    hide Same;
    var k := FindSub(ds, name);
    assert k < |ds| ==> Same(ds[k].name, name);
  }

  lemma {:induction false} HasConcat(a: seq<Listing>, b: seq<Listing>, name: string)
    ensures HasSub(a + b, name) <==> HasSub(a, name) || HasSub(b, name)
  {
    hide Same;
    var c := a + b;
    assert forall i :: 0 <= i < |a| ==> c[i] == a[i];
    assert forall i :: 0 <= i < |b| ==> c[|a| + i] == b[i];
  }

  lemma {:induction false} HasOne(d: Listing, name: string)
    ensures HasSub([d], name) <==> Same(d.name, name)
  {
    hide Same;
    assert [d][0] == d;
  }

  lemma {:induction false} OneMoreName(all: seq<Listing>, x: Listing)
    requires Distinct(all) && !HasSub(all, x.name)
    ensures Distinct(all + [x])
  {
    hide Same;
    forall i, j | 0 <= i < j < |all + [x]| ensures !Same((all + [x])[i].name, (all + [x])[j].name) {
      if j == |all| { assert !Same(all[i].name, x.name); }
    }
  }

  lemma {:induction false} SameHas(ds: seq<Listing>, name: string, other: string)
    requires Same(name, other)
    ensures HasSub(ds, name) <==> HasSub(ds, other)
  {
    hide Fold;
    if i :| 0 <= i < |ds| && Same(ds[i].name, name) { assert Same(ds[i].name, other); }
    if i :| 0 <= i < |ds| && Same(ds[i].name, other) { assert Same(ds[i].name, name); }
  }

  /** The directories afterwards: one for each name there was or is given. */
  lemma {:induction false} FreshNames(es: seq<Element>, ds: seq<Listing>, name: string)
    requires Distinct(ds)
    ensures var all := ds + Fresh(es, ds);
      && Distinct(all) && (HasSub(all, name) <==> HasSub(ds, name) || Mentions(es, name))
      && forall i :: |ds| <= i < |all| ==> all[i].subs == []
    decreases |es|
  {
    if es == [] {
      assert ds + [] == ds;
    } else {
      var front, e := es[..|es| - 1], es[|es| - 1];
      FreshNames(front, ds, name);
      var rest := Fresh(front, ds);
      var all := ds + rest;
      assert es == front + [e];
      MentionsStep(front, e, name);
      FreshStep(front, e, ds);
      hide Fresh, HasSub, Mentions, Same, Distinct;
      if e.DirElement? && !HasSub(all, e.dir.name) {
        var x := NewDirectory(e.dir);
        assert ds + (rest + [x]) == all + [x];
        HasConcat(all, [x], name);
        HasOne(x, name);
        OneMoreName(all, x);
      } else if e.DirElement? && IsDir(e, name) {
        SameHas(all, e.dir.name, name);
      }
    }
  }

  // ---------------------------------------------------------------- loading is merging

  lemma {:induction false} ContentValid(es: seq<Element>, name: string)
    requires AllValid(es)
    ensures AllValid(ContentOf(es, name))
  {
    if es != [] {
      var front, e := es[..|es| - 1], es[|es| - 1];
      ValidSplit(front, e);
      assert es == front + [e];
      ContentValid(front, name);
      hide ValidElement, Same;
      if IsDir(e, name) {
        assert AllValid(e.content) by { DirValid(e); }
        ValidConcat(ContentOf(front, name), e.content);
      }
    }
  }

  lemma {:induction false} DirValid(e: Element)
    requires ValidElement(e) && e.DirElement?
    ensures AllValid(e.content) && ValidName(e.dir.name)
  {}

  lemma {:induction false} ValidConcat(a: seq<Element>, b: seq<Element>)
    ensures AllValid(a + b) <==> AllValid(a) && AllValid(b)
  {
    hide ValidElement;
    var c := a + b;
    assert forall i :: 0 <= i < |a| ==> c[i] == a[i];
    assert forall i :: 0 <= i < |b| ==> c[|a| + i] == b[i];
  }

  lemma {:induction false} ValidSplit(front: seq<Element>, e: Element)
    ensures AllValid(front + [e]) <==> AllValid(front) && ValidElement(e)
  {
    ValidConcat(front, [e]);
    hide ValidElement;
    assert [e][0] == e;
  }

  lemma {:induction false} SizeStep(front: seq<Element>, e: Element)
    ensures Size(front + [e]) == Size(front) + SizeOf(e)
  {
    assert (front + [e])[..|front|] == front;
    hide SizeOf;
  }

  lemma {:induction false} SameApart(d: Listing, x: Listing)
    requires Apart(d) && x.subs == d.subs
    ensures Apart(x)
  {}

  /** Directories that exist are used again: a document with valid names adds its content to what is
      there, however often it repeats a directory. */
  lemma {:induction false} Merges(d: Listing, es: seq<Element>)
    requires Apart(d) && AllValid(es)
    ensures LoadAll(d, es, true) == (Merged(d, es), Fine)
    decreases Size(es), 2
  {
    if es == [] {
      NothingMerged(d);
    } else {
      var front, e := es[..|es| - 1], es[|es| - 1];
      assert es == front + [e];
      SizeStep(front, e);
      ValidSplit(front, e);
      LoadOne(d, front, e, true);
      Merges(d, front);
      if e.FileElement? { MergesFile(d, front, e); } else { MergesDir(d, front, e); }
    }
  }

  lemma {:induction false} NothingMerged(d: Listing)
    ensures Merged(d, []) == d
  {
    var none: seq<Element> := [];
    assert d.files + FilesIn(none) == d.files && d.subs + Fresh(none, d.subs) == d.subs;
    forall k | 0 <= k < |d.subs| ensures MergedSub(d.subs[k], none) == d.subs[k] {}
    assert Merged(d, none).subs == d.subs;
  }

  lemma {:induction false} FileMerged(d: Listing, front: seq<Element>, e: Element)
    requires e.FileElement?
    ensures Merged(d, front + [e]) == Merged(d, front).(files := Merged(d, front).files + FilesIn([e]))
  {
    var all := d.subs + Fresh(front, d.subs);
    FreshStep(front, e, d.subs);
    InAppended(front, e);
    forall k | 0 <= k < |all| ensures MergedSub(all[k], front + [e]) == MergedSub(all[k], front) {
      SubUnmentioned(all[k], front, e);
    }
    hide Fresh, MergedSub, FilesIn, DirsIn;
    assert Merged(d, front + [e]).subs == Merged(d, front).subs;
    Assoc(d.files, FilesIn(front), FilesIn([e]));
  }

  lemma {:induction false} MergesFile(d: Listing, front: seq<Element>, e: Element)
    requires e.FileElement? && ValidElement(e)
    ensures LoadElement(Merged(d, front), e, true) == (Merged(d, front + [e]), Fine)
  {
    FileMerged(d, front, e);
    hide Merged, FilesIn;
    FileLoaded(Merged(d, front), e);
  }

  lemma {:induction false} FileLoaded(m: Listing, e: Element)
    requires e.FileElement? && ValidElement(e)
    ensures LoadElement(m, e, true) == (m.(files := m.files + FilesIn([e])), Fine)
  {
    JustOne(e);
    hide FilesIn, ValidName;
    assert m.files + [] == m.files;
  }

  /** A directory that is named once more. */
  lemma {:induction false} MergesAgain(x: Listing, front: seq<Element>, e: Element)
    requires Apart(x) && IsDir(e, x.name) && AllValid(front) && ValidElement(e)
    ensures LoadAll(Refreshed(MergedSub(x, front), e.dir), e.content, true) == (MergedSub(x, front + [e]), Fine)
    decreases Size(front + [e]), 0
  {
    var es, name := front + [e], x.name;
    var c, t := ContentOf(front, name), Touched(x, front);
    var again := Refreshed(t, e.dir);
    ContentStep(front, e, name);
    TouchedStep(x, front, e);
    TouchedKeeps(x, front);
    MentionsStep(front, e, name);
    ContentSmaller(es, name);
    ContentSmaller(front, name);
    SizeStep(front, e);
    ContentValid(front, name);
    DirValid(e);
    ValidConcat(c, e.content);
    SameApart(x, t);
    SameApart(x, again);
    assert MergedSub(x, es) == Merged(again, c + e.content);
    Merges(again, c + e.content);
    LoadConcat(again, c, e.content, true);
    if Mentions(front, name) {
      Merges(t, c);
      InfoAside(t, again.info, c, true);
    } else {
      NothingSaid(front, x);
    }
    hide Merged, LoadAll, ContentOf, Touched, Mentions, IsDir, Apart, AllValid, Size;
  }

  lemma {:induction false} MergesDir(d: Listing, front: seq<Element>, e: Element)
    requires Apart(d) && AllValid(front) && ValidElement(e) && e.DirElement?
    ensures LoadElement(Merged(d, front), e, true) == (Merged(d, front + [e]), Fine)
    decreases Size(front + [e]), 1
  {
    var all, k := d.subs + Fresh(front, d.subs), FindSub(Merged(d, front).subs, e.dir.name);
    var x := if k < |all| then all[k] else NewDirectory(e.dir);
    hide Fresh, Same, FindSub, HasSub, Merged, MergedSub, FilesIn, Apart, AllValid, ValidElement, LoadElement, LoadAll;
    hide Size, Mentions, ValidName, Distinct;
    MergedNames(d, front);
    FindByNames(all, Merged(d, front).subs, e.dir.name);
    FoundAmong(d, front, e, k);
    AllAfter(d, front, e);
    NoMoreFiles(front, e);
    DirValid(e);
    MergesAgain(x, front, e);
    if k == |all| { NotYet(x, front); }
    OthersAside(all, k, front, e);
    MergedAt(d, front, e, k, x);
  }

  lemma {:induction false} AllAfter(d: Listing, front: seq<Element>, e: Element)
    requires e.DirElement?
    ensures var all := d.subs + Fresh(front, d.subs);
      d.subs + Fresh(front + [e], d.subs) == if HasSub(all, e.dir.name) then all else all + [NewDirectory(e.dir)]
  {
    FreshStep(front, e, d.subs);
    hide Fresh, HasSub;
    Assoc(d.subs, Fresh(front, d.subs), [NewDirectory(e.dir)]);
  }

  lemma {:induction false} NotYet(x: Listing, front: seq<Element>)
    requires !Mentions(front, x.name)
    ensures MergedSub(x, front) == x
  {}

  /** Which directory an element goes to: one that is there, or a new one that nothing was said of. */
  lemma {:induction false} FoundAmong(d: Listing, front: seq<Element>, e: Element, k: nat)
    requires Apart(d) && e.DirElement? && k == FindSub(d.subs + Fresh(front, d.subs), e.dir.name)
    ensures var all := d.subs + Fresh(front, d.subs);
      && Distinct(all) && k <= |all| && (HasSub(all, e.dir.name) <==> k < |all|)
      && (k < |all| ==> Apart(all[k]) && IsDir(e, all[k].name))
      && (k == |all| ==> Apart(NewDirectory(e.dir)) && !Mentions(front, e.dir.name) && IsDir(e, e.dir.name))
  {
    var all := d.subs + Fresh(front, d.subs);
    FreshNames(front, d.subs, e.dir.name);
    FoundHas(all, e.dir.name);
    FoundSame(all, e.dir.name);
    hide Fresh, Same, FindSub, Mentions, HasSub, Distinct;
    if |d.subs| <= k < |all| { assert all[k].subs == []; NoneApart(all[k]); }
    NoneApart(NewDirectory(e.dir));
  }

  lemma {:induction false} FoundSame(ds: seq<Listing>, name: string)
    ensures Same(name, name) && (FindSub(ds, name) < |ds| ==> Same(name, ds[FindSub(ds, name)].name))
  {
    hide Fold;
  }

  lemma {:induction false} NoneApart(d: Listing)
    requires d.subs == []
    ensures Apart(d)
  {}

  lemma {:induction false} OthersAside(all: seq<Listing>, k: nat, front: seq<Element>, e: Element)
    requires Distinct(all) && e.DirElement? && k == FindSub(all, e.dir.name)
    ensures forall j :: 0 <= j < |all| && j != k ==> MergedSub(all[j], front + [e]) == MergedSub(all[j], front)
  {
    hide Distinct, FindSub, MergedSub, Same;
    forall j | 0 <= j < |all| && j != k ensures MergedSub(all[j], front + [e]) == MergedSub(all[j], front) {
      OthersApart(all, k, j, e.dir.name);
      SubUnmentioned(all[j], front, e);
    }
  }

  /** The pieces of the directory after one more element. */
  lemma {:induction false} MergedAt(d: Listing, front: seq<Element>, e: Element, k: nat, x: Listing)
    requires e.DirElement? && ValidName(e.dir.name) && FilesIn(front + [e]) == FilesIn(front)
    requires k == FindSub(Merged(d, front).subs, e.dir.name)
    requires var all, next := d.subs + Fresh(front, d.subs), d.subs + Fresh(front + [e], d.subs);
      && k <= |all| && x == (if k < |all| then all[k] else NewDirectory(e.dir))
      && next == (if k < |all| then all else all + [x])
      && (k == |all| ==> MergedSub(x, front) == x)
      && forall j :: 0 <= j < |all| && j != k ==> MergedSub(all[j], front + [e]) == MergedSub(all[j], front)
    requires LoadAll(Refreshed(MergedSub(x, front), e.dir), e.content, true) == (MergedSub(x, front + [e]), Fine)
    ensures LoadElement(Merged(d, front), e, true) == (Merged(d, front + [e]), Fine)
  {
    var m := Merged(d, front);
    hide FindSub, Fresh, MergedSub, FilesIn, ValidName, LoadAll;
    assert Target(m, e.dir) == (k, Refreshed(MergedSub(x, front), e.dir));
    assert SetSub(m, k, MergedSub(x, front + [e])).subs == Merged(d, front + [e]).subs;
  }

  lemma {:induction false} NoMoreFiles(front: seq<Element>, e: Element)
    requires e.DirElement?
    ensures FilesIn(front + [e]) == FilesIn(front)
  {
    assert (front + [e])[..|front|] == front;
  }

  lemma {:induction false} MergedNames(d: Listing, es: seq<Element>)
    ensures var all := d.subs + Fresh(es, d.subs);
      |Merged(d, es).subs| == |all| && forall i :: 0 <= i < |all| ==> Merged(d, es).subs[i].name == all[i].name
  {
    var all := d.subs + Fresh(es, d.subs);
    forall i | 0 <= i < |all| ensures Merged(d, es).subs[i].name == all[i].name { MergedSubName(all[i], es); }
    hide Fresh, MergedSub, FilesIn;
  }

  lemma {:induction false} OthersApart(all: seq<Listing>, k: nat, j: nat, name: string)
    requires Distinct(all) && k == FindSub(all, name) && j < |all| && j != k
    ensures !Same(name, all[j].name)
  {
    hide Fold;
  }

  /** An updating load fails exactly for an invalid name. */
  lemma {:induction false} FailsExactly(d: Listing, es: seq<Element>)
    ensures LoadAll(d, es, true).1 == if AllValid(es) then Fine else BadName
    decreases es, 0
  {
    if es != [] {
      var front, e := es[..|es| - 1], es[|es| - 1];
      assert es == front + [e];
      ValidSplit(front, e);
      LoadOne(d, front, e, true);
      FailsExactly(d, front);
      FailsElement(LoadAll(d, front, true).0, e);
    }
    hide LoadElement, ValidElement, AllValid, LoadAll;
  }

  lemma {:induction false} FailsElement(d: Listing, e: Element)
    ensures LoadElement(d, e, true).1 == if ValidElement(e) then Fine else BadName
    decreases e, 1
  {
    if e.DirElement? { FailsExactly(Target(d, e.dir).1, e.content); }
    hide LoadAll, AllValid, FindSub, ValidName;
  }

  /** When no name is there yet and none repeats, updating or not makes no difference. */
  lemma {:induction false} NothingToUpdate(d: Listing, es: seq<Element>)
    requires Unused(d, es) && Loadable(es)
    ensures LoadAll(d, es, true) == LoadAll(d, es, false) == (Added(d, es), Fine)
    decreases es, 0
  {
    LoadsExactly(d, es);
    if es != [] {
      var front, e := es[..|es| - 1], es[|es| - 1];
      assert es == front + [e];
      LoadableSplit(front, e);
      NothingToUpdate(d, front);
      LoadOne(d, front, e, true);
      LoadOne(d, front, e, false);
      if e.DirElement? {
        StillUnused(d, front, e.dir.name);
        NothingToUpdate(NewDirectory(e.dir), e.content);
      }
      hide LoadAll, Added, Loadable, Fold, FindSub;
    }
  }
}
