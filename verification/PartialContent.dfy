/** What a partial file list holds after a document was loaded into it (filelist/DirectoryListing.cpp,
    loadPartialImpl; filelist/ListLoader.cpp). */
module PartialContent {

  import opened DirectoryTree
  import opened ListDocument
  import opened ListLoading
  import opened ListPaths
  import opened MergedLists
  import opened Names
  import opened Options
  import opened PartialLists

  /** The base directory as the document finds it: new, cleared because it was complete, or as it was. */
  function BaseFor(root: Listing, base: string): Listing
    requires IsAdcDirectoryPath(base)
  {
    var names, p := Tokens(base), Create(root, Tokens(base)).1;
    if !Reaches(root, p) then Missing(if names == [] then "" else names[|names| - 1])
    else
      var d := Node(root, p);
      if FindDirectory(root, base).Some? && d.info.kind == NORMAL then d.(files := [], subs := []) else d
  }

  /** The base is not in the list yet, or complete. */
  ghost predicate BeginsEmpty(root: Listing, base: string)
    requires IsAdcDirectoryPath(base)
  {
    match FindDirectory(root, base)
    case None => NoEmptyParts(base)
    case Some(q) =>
      FoundHasPath(root, base, q);
      Node(root, q).info.kind == NORMAL
  }

  function Dated(d: Listing, date: nat): Listing { d.(info := d.info.(date := date)) }

  /** Creating a path adds only what is missing. */
  lemma {:induction false} CreatedNode(d: Listing, names: seq<string>)
    ensures var r := Create(d, names);
      if Reaches(d, r.1) then r.0 == d else names != [] && Node(r.0, r.1) == Missing(names[|names| - 1])
    decreases |names|
  {
    if names != [] {
      var k := FindSub(d.subs, names[0]);
      var sub := if k < |d.subs| then d.subs[k] else Missing(names[0]);
      CreateFirst(d, names[0], names[1..]);
      assert [names[0]] + names[1..] == names;
      CreatedNode(sub, names[1..]);
      var r := Create(sub, names[1..]);
      assert ([k] + r.1)[1..] == r.1;
      if k == |d.subs| && names[1..] != [] { CreatedChain(sub, names[1..]); }
      hide FindSub, Create;
    } else {
      CreateNothing(d);
    }
  }

  lemma {:induction false} BaseCreated(root: Listing, base: string)
    requires WellNamed(root) && IsAdcDirectoryPath(base)
    ensures var t, p := Create(Cleared(root, base), Tokens(base)), Create(root, Tokens(base)).1;
      t.1 == p && Node(t.0, p) == BaseFor(root, base)
  {
    var names := Tokens(base);
    var p := Create(root, names).1;
    match FindDirectory(root, base)
    case None =>
      CreatedNode(root, names);
      hide Tokens, FindDirectory, WellNamed, Create, Node, Reaches;
    case Some(q) =>
      FoundHasPath(root, base, q);
      FoundIsCreated(root, base, q);
      hide Tokens, FindDirectory, WellNamed, Create, Node, Reaches;
      if Node(root, q).info.kind == NORMAL { ClearedNode(root, names, q); }
  }

  lemma {:induction false} ClearedNode(root: Listing, names: seq<string>, q: seq<nat>)
    requires Create(root, names) == (root, q) && Reaches(root, q)
    ensures var x := Node(root, q).(files := [], subs := []);
      Create(Put(root, q, x), names).1 == q && Node(Create(Put(root, q, x), names).0, q) == x
  {
    var x := Node(root, q).(files := [], subs := []);
    hide Create, Node, Reaches, Put;
    CreatedAfterPut(root, names, q, x);
    NodePut(root, q, x);
  }

  lemma {:induction false} WellNamedApart(d: Listing)
    requires WellNamed(d)
    ensures Apart(d)
  {
    forall i | 0 <= i < |d.subs| ensures Apart(d.subs[i]) { WellNamedApart(d.subs[i]); }
  }

  lemma {:induction false} NodeWellNamed(d: Listing, p: seq<nat>)
    requires WellNamed(d) && Reaches(d, p)
    ensures WellNamed(Node(d, p))
    decreases |p|
  {
    if p != [] { NodeWellNamed(d.subs[p[0]], p[1..]); }
  }

  lemma {:induction false} BaseApart(root: Listing, base: string)
    requires WellNamed(root) && IsAdcDirectoryPath(base)
    ensures Apart(BaseFor(root, base))
  {
    var p := Create(root, Tokens(base)).1;
    if Reaches(root, p) {
      NodeWellNamed(root, p);
      WellNamedApart(Node(root, p));
    }
    hide Create, Tokens, FindDirectory, WellNamed;
  }

  /** Loading a document about the base fails exactly for an invalid name.  Otherwise the base directory
      is complete and holds what the document adds to it: repeated directories are merged. */
  lemma {:induction false} PartialLoadContent(root: Listing, base: string, b: string, date: nat, es: seq<Element>)
    requires WellNamed(root) && IsAdcDirectoryPath(base) && Same(b, base)
    ensures var r, p := LoadPartial(root, base, b, date, es), Create(root, Tokens(base)).1;
      && r.1 == (if AllValid(es) then Fine else BadName)
      && (AllValid(es) ==>
        Reaches(r.0.root, p) && Node(r.0.root, p) == Finished(Merged(Dated(BaseFor(root, base), date), es)))
  {
    var c, list, names := Config(base, true), Cleared(root, base), Tokens(base);
    var t, d := Create(list, names), Dated(BaseFor(root, base), date);
    DocumentRead(c, list, b, date, es);
    BaseCreated(root, base);
    BaseApart(root, base);
    SameApart(BaseFor(root, base), d);
    NodePut(t.0, t.1, d);
    var begun := Begun(c, Loader(list, [], false), b, date).0;
    assert begun == Loader(Put(t.0, t.1, d), t.1, true);
    FailsExactly(d, es);
    hide Create, Tokens, LoadAll, Merged, AllValid, Cleared, BaseFor, WellNamed;
    if AllValid(es) {
      Merges(d, es);
      NodePut(begun.root, begun.cur, Finished(Merged(d, es)));
    }
  }

  /** A directory that was not in the list and is created has no content; neither has a cleared one. */
  lemma {:induction false} BaseEmpty(root: Listing, base: string)
    requires WellNamed(root) && IsAdcDirectoryPath(base) && BeginsEmpty(root, base)
    ensures BaseFor(root, base).files == [] && BaseFor(root, base).subs == []
  {
    match FindDirectory(root, base)
    case None =>
      CreatedIsFound(root, base);
      CreatedNode(root, Tokens(base));
    case Some(q) =>
      FoundHasPath(root, base, q);
      FoundIsCreated(root, base, q);
      hide FindDirectory, Tokens, Create, WellNamed;
  }

  /** Loading the document of a directory into a new or complete base gives that directory's content. */
  lemma {:induction false} PartialRebuilt(root: Listing, base: string, b: string, date: nat, x: Listing)
    requires WellNamed(root) && IsAdcDirectoryPath(base) && Same(b, base) && WellNamed(x) && FilesNamed(x)
    requires BeginsEmpty(root, base)
    ensures var r, p := LoadPartial(root, base, b, date, ElementsOf(x)), Create(root, Tokens(base)).1;
      && r.1 == Fine && Reaches(r.0.root, p)
      && Node(r.0.root, p).files == x.files && Node(r.0.root, p).subs == x.subs && Node(r.0.root, p).info.kind == NORMAL
  {
    var d, es := Dated(BaseFor(root, base), date), ElementsOf(x);
    BaseEmpty(root, base);
    WrittenLoadable(x);
    ListWritten(x);
    assert Unused(d, es);
    NothingToUpdate(d, es);
    FailsExactly(d, es);
    BaseApart(root, base);
    SameApart(BaseFor(root, base), d);
    Merges(d, es);
    PartialLoadContent(root, base, b, date, es);
    assert [] + x.files == x.files && [] + x.subs == x.subs;
    hide Create, Tokens, LoadAll, LoadPartial, Merged, AllValid, BaseFor, WellNamed, ElementsOf, FindDirectory;
  }

  /** A directory that the document does not say more about keeps what was loaded into it before. */
  lemma {:induction false} LoadedSubKept(x: Listing, es: seq<Element>)
    requires ContentOf(es, x.name) == []
    ensures MergedSub(x, es) == x.(info := Touched(x, es).info)
    ensures x.info.kind == NORMAL ==> MergedSub(x, es).info.kind == NORMAL
  {
    TouchedKeeps(x, es);
    NothingMerged(Touched(x, es));
    if !Mentions(es, x.name) { NothingSaid(es, x); }
    if x.info.kind == NORMAL { StaysComplete(x, es); }
    hide Merged, Mentions, Touched, ContentOf;
  }

  lemma {:induction false} StaysComplete(x: Listing, es: seq<Element>)
    requires x.info.kind == NORMAL
    ensures Touched(x, es).info.kind == NORMAL
  {
    if es != [] { StaysComplete(x, es[..|es| - 1]); }
    hide IsDir;
  }

  /** A document about another directory is refused.  That leaves the list as it was exactly if the
      directory asked for is not in the list, not complete, or empty already. */
  lemma {:induction false} RefusedHarmlessExactly(root: Listing, base: string, b: string, date: nat, es: seq<Element>)
    requires WellNamed(root) && IsAdcDirectoryPath(base) && !Same(b, base)
    ensures LoadPartial(root, base, b, date, es).1 == WrongBase
    ensures LoadPartial(root, base, b, date, es).0.root == root <==>
      match FindDirectory(root, base)
      case None => true
      case Some(q) =>
        (FoundHasPath(root, base, q);
        var d := Node(root, q);
        d.info.kind != NORMAL || (d.files == [] && d.subs == []))
  {
    PartialLoadFrame(root, base, b, date, es);
    hide LoadPartial, FindDirectory, WellNamed;
    match FindDirectory(root, base)
    case None =>
    case Some(q) =>
      FoundHasPath(root, base, q);
      NodePut(root, q, Node(root, q).(files := [], subs := []));
      PutNode(root, q);
  }
}
