/** What loading a file list document means (filelist/ListLoader.cpp): elements are added to a
    directory one after the other; with `updating`, directories that exist are used again. */
module ListDocument {

  import opened DirectoryTree
  import opened ListPaths
  import opened Names
  import opened Options

  datatype DirType = NORMAL | INCOMPLETE_CHILD | INCOMPLETE_NOCHILD

  datatype Info = Info(kind: DirType, date: nat, size: int)

  type Listing = Tree<Info>

  /** None stands for an attribute that is missing or empty. */
  datatype FileAttributes = FileAttributes(name: string, size: Option<int>, hash: Option<nat>, date: nat)

  datatype DirAttributes = DirAttributes(name: string, incomplete: bool, directories: int, size: int, date: nat)

  /** Only elements without content can be written as one self-closing tag. */
  datatype Element =
    | FileElement(file: FileAttributes)
    | DirElement(dir: DirAttributes, simple: bool, content: seq<Element>)

  datatype Outcome = Fine | BadName | Duplicate | WrongBase

  // ---------------------------------------------------------------- one element

  /** parseDirectoryType */
  function TypeOf(a: DirAttributes): DirType {
    if !a.incomplete then NORMAL else if a.directories > 0 then INCOMPLETE_CHILD else INCOMPLETE_NOCHILD
  }

  function NewDirectory(a: DirAttributes): Listing {
    Tree(a.name, Info(TypeOf(a), a.date, a.size), [], [])
  }

  /** A directory that is loaded again. */
  function Refreshed(d: Listing, a: DirAttributes): Listing {
    d.(info := d.info.(kind := if a.incomplete then d.info.kind else NORMAL, date := a.date))
  }

  function LoadFile(d: Listing, a: FileAttributes): (Listing, Outcome) {
    if !ValidName(a.name) then (d, BadName)
    else if a.size.None? || a.hash.None? then (d, Fine)
    else (d.(files := d.files + [File(a.name, a.size.value, a.hash.value, a.date)]), Fine)
  }

  /** Where the directory of an element goes, and what it is at first. */
  function Target(d: Listing, a: DirAttributes): (nat, Listing) {
    var k := FindSub(d.subs, a.name);
    (k, if k < |d.subs| then Refreshed(d.subs[k], a) else NewDirectory(a))
  }

  function SetSub(d: Listing, k: nat, sub: Listing): Listing
    requires k <= |d.subs|
  {
    d.(subs := if k < |d.subs| then d.subs[k := sub] else d.subs + [sub])
  }

  function LoadElement(d: Listing, e: Element, updating: bool): (Listing, Outcome)
    decreases e, 1
  {
    match e
    case FileElement(a) => LoadFile(d, a)
    case DirElement(a, _, content) =>
      if !ValidName(a.name) then (d, BadName)
      else
        var t := Target(d, a);
        if t.0 < |d.subs| && !updating then (d, Duplicate)
        else
          var r := LoadAll(t.1, content, updating);
          (SetSub(d, t.0, r.0), r.1)
  }

  /** The elements in order, up to the first one that fails. */
  function LoadAll(d: Listing, es: seq<Element>, updating: bool): (Listing, Outcome)
    decreases es, 0
  {
    if es == [] then (d, Fine)
    else
      var before := LoadAll(d, es[..|es| - 1], updating);
      if before.1 != Fine then before else LoadElement(before.0, es[|es| - 1], updating)
  }

  // ---------------------------------------------------------------- a new list

  /** Valid names, and no two directories with the same name side by side. */
  ghost predicate Loadable(es: seq<Element>)
    decreases es, 0
  {
    && (forall i :: 0 <= i < |es| ==> LoadableElement(es[i]))
    && forall i, j :: 0 <= i < j < |es| && es[i].DirElement? && es[j].DirElement? ==>
      !Same(es[i].dir.name, es[j].dir.name)
  }

  ghost predicate LoadableElement(e: Element)
    decreases e, 1
  {
    match e
    case FileElement(a) => ValidName(a.name)
    case DirElement(a, _, content) => ValidName(a.name) && Loadable(content)
  }

  function FilesIn(es: seq<Element>): seq<File> {
    if es == [] then []
    else
      var rest, e := FilesIn(es[..|es| - 1]), es[|es| - 1];
      if e.FileElement? && e.file.size.Some? && e.file.hash.Some? then
        rest + [File(e.file.name, e.file.size.value, e.file.hash.value, e.file.date)]
      else rest
  }

  function DirsIn(es: seq<Element>): seq<Listing> {
    if es == [] then []
    else
      var rest, e := DirsIn(es[..|es| - 1]), es[|es| - 1];
      if e.DirElement? then rest + [Built(e)] else rest
  }

  function Built(e: Element): Listing
    requires e.DirElement?
  {
    NewDirectory(e.dir).(files := FilesIn(e.content), subs := DirsIn(e.content))
  }

  function Added(d: Listing, es: seq<Element>): Listing {
    d.(files := d.files + FilesIn(es), subs := d.subs + DirsIn(es))
  }

  /** The directory has no subdirectory with a name that the elements give. */
  ghost predicate Unused(d: Listing, es: seq<Element>) {
    forall i :: 0 <= i < |es| && es[i].DirElement? ==> FindSub(d.subs, es[i].dir.name) == |d.subs|
  }

  /** No directory has the name. */
  ghost predicate Lacks(ds: seq<Listing>, name: string) {
    forall i :: 0 <= i < |ds| ==> !Same(ds[i].name, name)
  }

  /** Some element is a directory with the name. */
  ghost predicate Gives(es: seq<Element>, name: string) {
    exists i :: 0 <= i < |es| && es[i].DirElement? && Same(es[i].dir.name, name)
  }

  lemma {:induction false} FoundNone(ds: seq<Listing>, name: string)
    ensures FindSub(ds, name) == |ds| <==> Lacks(ds, name)
  {
    hide Fold;
  }

  lemma {:induction false} GivesStep(front: seq<Element>, e: Element, name: string)
    ensures Gives(front + [e], name) <==> Gives(front, name) || (e.DirElement? && Same(e.dir.name, name))
  {
    hide Same;
    var es := front + [e];
    assert es[|front|] == e && forall i :: 0 <= i < |front| ==> es[i] == front[i];
  }

  lemma {:induction false} LacksOne(d: Listing, name: string)
    ensures Lacks([d], name) <==> !Same(d.name, name)
  {
    hide Same;
    assert [d][0] == d;
  }

  lemma {:induction false} NamesIn(es: seq<Element>, name: string)
    ensures Gives(es, name) <==> !Lacks(DirsIn(es), name)
  {
    if es != [] {
      var front, e := es[..|es| - 1], es[|es| - 1];
      NamesIn(front, name);
      assert es == front + [e];
      GivesStep(front, e, name);
      InAppended(front, e);
      JustOne(e);
      hide Lacks, Gives, Same, DirsIn, FilesIn;
      SplitNames(DirsIn(front), DirsIn([e]), name);
      if e.DirElement? { LacksOne(Built(e), name); } else { NoneLacked(name); }
    }
  }

  lemma {:induction false} NoneLacked(name: string)
    ensures Lacks([], name)
  {}

  /** A document for a new list is accepted exactly when all names are valid and no directory has two
      subdirectories with the same name; then the list has just its files and directories, in order. */
  lemma {:induction false} LoadsExactly(d: Listing, es: seq<Element>)
    requires Unused(d, es)
    ensures LoadAll(d, es, false).1 == Fine <==> Loadable(es)
    ensures Loadable(es) ==> LoadAll(d, es, false).0 == Added(d, es)
    decreases es, 0
  {
    if es == [] {
      NothingToLoad(d);
    } else {
      hide Loadable, LoadableElement, LoadElement, Built, Fold, FindSub;
      var front, e := es[..|es| - 1], es[|es| - 1];
      LoadableSplit(front, e);
      assert es == front + [e];
      assert Unused(d, front);
      LoadsExactly(d, front);
      if Loadable(front) {
        LoadsElement(Added(d, front), e);
        AddedStep(d, front, e);
        if e.DirElement? {
          StillUnused(d, front, e.dir.name);
        }
      }
      hide Added, Unused;
    }
  }

  lemma {:induction false} NothingToLoad(d: Listing)
    ensures LoadAll(d, [], false) == (Added(d, []), Fine) && Loadable([])
  {
    assert d.files + FilesIn([]) == d.files && d.subs + DirsIn([]) == d.subs;
  }

  lemma {:induction false} AddedStep(d: Listing, front: seq<Element>, e: Element)
    ensures Added(Added(d, front), [e]) == Added(d, front + [e])
  {
    InAppended(front, e);
    hide FilesIn, DirsIn;
    assert d.files + FilesIn(front) + FilesIn([e]) == d.files + (FilesIn(front) + FilesIn([e]));
    assert d.subs + DirsIn(front) + DirsIn([e]) == d.subs + (DirsIn(front) + DirsIn([e]));
  }

  /** A name that was free is, unless one of the added directories has it. */
  lemma {:induction false} StillUnused(d: Listing, front: seq<Element>, name: string)
    requires FindSub(d.subs, name) == |d.subs|
    ensures FindSub(Added(d, front).subs, name) == |Added(d, front).subs| <==>
      !Gives(front, name)
  {
    var all := d.subs + DirsIn(front);
    assert Added(d, front).subs == all;
    hide Lacks, Same, DirsIn, FindSub;
    NamesIn(front, name);
    FoundNone(d.subs, name);
    FoundNone(all, name);
    SplitNames(d.subs, DirsIn(front), name);
  }

  lemma {:induction false} InAppended(front: seq<Element>, e: Element)
    ensures FilesIn(front + [e]) == FilesIn(front) + FilesIn([e]) && DirsIn(front + [e]) == DirsIn(front) + DirsIn([e])
  {
    assert (front + [e])[..|front|] == front;
    JustOne(e);
  }

  lemma {:induction false} JustOne(e: Element)
    ensures DirsIn([e]) == if e.DirElement? then [Built(e)] else []
    ensures FilesIn([e]) ==
      if e.FileElement? && e.file.size.Some? && e.file.hash.Some? then
        [File(e.file.name, e.file.size.value, e.file.hash.value, e.file.date)]
      else []
  {
    var none: seq<Element> := [];
    assert FilesIn(none) == [] && DirsIn(none) == [] && [e][..0] == none;
    hide Built;
  }

  lemma {:induction false} SplitNames(a: seq<Listing>, b: seq<Listing>, name: string)
    ensures Lacks(a + b, name) <==> Lacks(a, name) && Lacks(b, name)
  {
    hide Same;
    var c := a + b;
    assert forall i :: 0 <= i < |a| ==> c[i] == a[i];
    assert forall i :: 0 <= i < |b| ==> c[|a| + i] == b[i];
  }

  lemma {:induction false} LoadableSplit(front: seq<Element>, e: Element)
    ensures Loadable(front + [e]) <==>
      && Loadable(front) && LoadableElement(e)
      && (e.DirElement? ==> !Gives(front, e.dir.name))
  {
    hide LoadableElement, Fold;
    var es := front + [e];
    assert es[|front|] == e && forall i :: 0 <= i < |front| ==> es[i] == front[i];
  }

  lemma {:induction false} LoadsElement(d: Listing, e: Element)
    ensures var free := e.DirElement? ==> FindSub(d.subs, e.dir.name) == |d.subs|;
      && (LoadElement(d, e, false).1 == Fine <==> LoadableElement(e) && free)
      && (LoadableElement(e) && free ==> LoadElement(d, e, false).0 == Added(d, [e]))
    decreases e, 1
  {
    JustOne(e);
    assert d.files + [] == d.files && d.subs + [] == d.subs;
    if e.DirElement? {
      assert Unused(NewDirectory(e.dir), e.content);
      LoadsExactly(NewDirectory(e.dir), e.content);
      assert [] + FilesIn(e.content) == FilesIn(e.content) && [] + DirsIn(e.content) == DirsIn(e.content);
    }
    hide Loadable, FilesIn, DirsIn, Fold;
  }

  // ---------------------------------------------------------------- writing a list

  /** The document of a list: subdirectories, then files.  A directory without content is written as
      one self-closing tag. */
  function ElementsOf(d: Listing): seq<Element>
    decreases d, 1
  {
    DirElements(d.subs) + FileElements(d.files)
  }

  function DirElements(ds: seq<Listing>): seq<Element>
    decreases ds, 0
  {
    if ds == [] then []
    else
      var content := ElementsOf(ds[|ds| - 1]);
      DirElements(ds[..|ds| - 1]) + [DirElement(AttributesOf(ds[|ds| - 1]), content == [], content)]
  }

  function FileElements(files: seq<File>): seq<Element> {
    seq(|files|, i requires 0 <= i < |files| =>
      FileElement(FileAttributes(files[i].name, Some(files[i].size), Some(files[i].hash), files[i].date)))
  }

  function AttributesOf(d: Listing): DirAttributes {
    var children := if d.info.kind == INCOMPLETE_CHILD then 1 else 0;
    DirAttributes(d.name, d.info.kind != NORMAL, children, d.info.size, d.info.date)
  }

  /** The files have valid names too. */
  ghost predicate FilesNamed(d: Listing) {
    && (forall i :: 0 <= i < |d.files| ==> ValidName(d.files[i].name))
    && forall i :: 0 <= i < |d.subs| ==> FilesNamed(d.subs[i])
  }

  lemma {:induction false} FilesWritten(files: seq<File>)
    ensures FilesIn(FileElements(files)) == files && DirsIn(FileElements(files)) == []
  {
    if files != [] {
      FilesWritten(files[..|files| - 1]);
      assert FileElements(files)[..|files| - 1] == FileElements(files[..|files| - 1]);
      assert files == files[..|files| - 1] + [files[|files| - 1]];
    }
  }

  lemma {:induction false} InConcat(a: seq<Element>, b: seq<Element>)
    ensures FilesIn(a + b) == FilesIn(a) + FilesIn(b) && DirsIn(a + b) == DirsIn(a) + DirsIn(b)
    decreases |b|
  {
    if b == [] {
      assert a + b == a;
      assert FilesIn(b) == [] && DirsIn(b) == [];
    } else {
      var b', e := b[..|b| - 1], b[|b| - 1];
      InConcat(a, b');
      assert b == b' + [e];
      Assoc(a, b', [e]);
      hide FilesIn, DirsIn;
      InAppended(a + b', e);
      InAppended(b', e);
      Assoc(FilesIn(a), FilesIn(b'), FilesIn([e]));
      Assoc(DirsIn(a), DirsIn(b'), DirsIn([e]));
    }
  }

  lemma {:induction false} Assoc<T>(a: seq<T>, b: seq<T>, c: seq<T>)
    ensures (a + b) + c == a + (b + c)
  {}

  lemma {:induction false} ListWritten(d: Listing)
    ensures FilesIn(ElementsOf(d)) == d.files && DirsIn(ElementsOf(d)) == d.subs
    decreases d, 1
  {
    DirsWritten(d.subs);
    FilesWritten(d.files);
    InConcat(DirElements(d.subs), FileElements(d.files));
    hide FilesIn, DirsIn, DirElements, FileElements;
    assert [] + d.files == d.files && d.subs + [] == d.subs;
  }

  function ElementFor(d: Listing): Element {
    DirElement(AttributesOf(d), ElementsOf(d) == [], ElementsOf(d))
  }

  lemma {:induction false} DirsWritten(ds: seq<Listing>)
    ensures FilesIn(DirElements(ds)) == [] && DirsIn(DirElements(ds)) == ds
    decreases ds, 0
  {
    if ds != [] {
      hide ElementsOf, DirElements, FilesIn, DirsIn, ElementFor;
      var front, d := ds[..|ds| - 1], ds[|ds| - 1];
      DirsWritten(front);
      ListWritten(d);
      DirWritten(d);
      LastElement(ds);
      InAppended(DirElements(front), ElementFor(d));
      assert [] + FilesIn([ElementFor(d)]) == [] && ds == front + [d];
    }
  }

  lemma {:induction false} LastElement(ds: seq<Listing>)
    requires ds != []
    ensures DirElements(ds) == DirElements(ds[..|ds| - 1]) + [ElementFor(ds[|ds| - 1])]
  {
    hide ElementsOf, AttributesOf;
  }

  lemma {:induction false} DirWritten(d: Listing)
    requires FilesIn(ElementsOf(d)) == d.files && DirsIn(ElementsOf(d)) == d.subs
    ensures FilesIn([ElementFor(d)]) == [] && DirsIn([ElementFor(d)]) == [d]
  {
    JustOne(ElementFor(d));
    BuiltBack(d, ElementsOf(d) == []);
    hide ElementsOf, FilesIn, DirsIn, Built, AttributesOf;
  }

  lemma {:induction false} BuiltBack(d: Listing, simple: bool)
    requires FilesIn(ElementsOf(d)) == d.files && DirsIn(ElementsOf(d)) == d.subs
    ensures Built(DirElement(AttributesOf(d), simple, ElementsOf(d))) == d
  {
    hide ElementsOf, FilesIn, DirsIn;
  }

  lemma {:induction false} WrittenLoadable(d: Listing)
    requires WellNamed(d) && FilesNamed(d)
    ensures Loadable(ElementsOf(d))
    decreases d, 1
  {
    var es, n := ElementsOf(d), |d.subs|;
    DirElementsAre(d.subs);
    forall i | 0 <= i < |es| ensures LoadableElement(es[i]) {
      if i < n {
        assert es[i] == DirElements(d.subs)[i];
        WrittenLoadable(d.subs[i]);
      } else {
        assert es[i] == FileElements(d.files)[i - n];
      }
    }
    forall i | n <= i < |es| ensures es[i].FileElement? { assert es[i] == FileElements(d.files)[i - n]; }
    forall i, j | 0 <= i < j < |es| && es[i].DirElement? && es[j].DirElement?
      ensures !Same(es[i].dir.name, es[j].dir.name)
    {
      assert j < n && es[j] == DirElements(d.subs)[j] && es[i] == DirElements(d.subs)[i];
    }
  }

  lemma {:induction false} DirElementsAre(ds: seq<Listing>)
    ensures |DirElements(ds)| == |ds|
    ensures forall i :: 0 <= i < |ds| ==> var e := DirElements(ds)[i];
      e.DirElement? && e.dir == AttributesOf(ds[i]) && e.content == ElementsOf(ds[i])
  {
    hide ElementsOf;
    if ds != [] { DirElementsAre(ds[..|ds| - 1]); }
  }

  /** A list that is written and loaded again is the same list. */
  lemma {:induction false} WriteThenLoad(d: Listing)
    requires WellNamed(d) && FilesNamed(d)
    ensures LoadAll(d.(files := [], subs := []), ElementsOf(d), false) == (d, Fine)
  {
    var none := d.(files := [], subs := []);
    WrittenLoadable(d);
    ListWritten(d);
    NoneUsed(none, ElementsOf(d));
    hide LoadAll, ElementsOf, Loadable, Unused, FilesIn, DirsIn, WellNamed, FilesNamed;
    LoadsExactly(none, ElementsOf(d));
    NothingBefore(d.files);
    NothingBefore(d.subs);
  }

  lemma {:induction false} NothingBefore<T>(s: seq<T>)
    ensures [] + s == s
  {}

  lemma {:induction false} NoneUsed(d: Listing, es: seq<Element>)
    requires d.subs == []
    ensures Unused(d, es)
  {}
}
