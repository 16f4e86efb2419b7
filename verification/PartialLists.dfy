/** Loading whole and partial file lists from their documents (filelist/ListLoader.cpp;
    filelist/DirectoryListing.cpp, loadPartialImpl). */
module PartialLists {

  import opened DirectoryTree
  import opened ListDocument
  import opened ListLoading
  import opened ListPaths
  import opened Names
  import opened Options

  /** The tags of a document. */
  function DocumentTags(base: string, date: nat, es: seq<Element>): seq<Tag> {
    [StartListing(base, date, false)] + TagsOf(es) + [EndListing]
  }

  /** Loading starts at the root. */
  function LoadDocument(c: Config, root: Listing, base: string, date: nat, es: seq<Element>): (Loader, Outcome)
    requires c.updating ==> IsAdcDirectoryPath(c.base)
  {
    Feed(c, Loader(root, [], false), DocumentTags(base, date, es))
  }

  /** Reading a document is: the opening tag, the meaning of its elements at the cursor, the end. */
  lemma {:induction false} DocumentRead(c: Config, root: Listing, base: string, date: nat, es: seq<Element>)
    requires c.updating ==> IsAdcDirectoryPath(c.base)
    ensures var begun := Begun(c, Loader(root, [], false), base, date);
      && begun.0.Valid()
      && var r := LoadDocument(c, root, base, date, es);
      var meant := LoadAll(begun.0.Current(), es, c.updating);
      if begun.1 != Fine then r == begun
      else if meant.1 != Fine then r.1 == meant.1 && r.0.root == begun.0.With(meant.0).root
      else r == (begun.0.With(Finished(meant.0)).(inListing := false), Fine)
  {
    var l := Loader(root, [], false);
    var start := StartListing(base, date, false);
    BegunValid(c, l, base, date);
    var begun := Begun(c, l, base, date);
    FeedOne(c, l, start);
    FeedConcat(c, l, [start], TagsOf(es));
    FeedConcat(c, l, [start] + TagsOf(es), [EndListing]);
    if begun.1 == Fine {
      assert begun.0.inListing;
      ReadsDocument(c, begun.0, es);
      var r := Feed(c, begun.0, TagsOf(es));
      FeedOne(c, r.0, EndListing);
      var meant := LoadAll(begun.0.Current(), es, c.updating).0;
      NodePut(begun.0.root, begun.0.cur, meant);
      PutPut(begun.0.root, begun.0.cur, meant, Finished(meant));
    }
    hide Feed, TagsOf, LoadAll, Begun, Put, Node, Reaches;
  }

  // ---------------------------------------------------------------- whole lists

  /** The tags of a list, read into an empty one, give the list back; the cursor is at the root. */
  lemma {:induction false} ListRebuilt(c: Config, d: Listing, base: string, date: nat)
    requires !c.updating && WellNamed(d) && FilesNamed(d) && d.info.kind == NORMAL
    ensures LoadDocument(c, d.(files := [], subs := []), base, date, ElementsOf(d)) == (Loader(d, [], false), Fine)
  {
    var none := d.(files := [], subs := []);
    DocumentRead(c, none, base, date, ElementsOf(d));
    WriteThenLoad(d);
    PutRoot(none, d);
    assert Finished(d) == d;
    hide LoadAll, ElementsOf, Put, Node, Reaches, LoadDocument;
  }

  /** Any other document is refused exactly for an invalid name or for two directories with the same
      name in one place. */
  lemma {:induction false} RefusedExactly(c: Config, root: Listing, base: string, date: nat, es: seq<Element>)
    requires !c.updating && root.subs == []
    ensures LoadDocument(c, root, base, date, es).1 == Fine <==> Loadable(es)
  {
    DocumentRead(c, root, base, date, es);
    assert Unused(root, es);
    LoadsExactly(root, es);
    PutRoot(root, root);
    hide LoadAll, Put, Node, Reaches, LoadDocument, Loadable;
  }

  // ---------------------------------------------------------------- partial lists

  /** Nothing but directories that were missing on the way, incomplete but with something below. */
  ghost predicate Chain(d: Listing, p: seq<nat>)
    decreases |p|
  {
    p == [] ||
    (d.files == [] && d.info == Info(INCOMPLETE_CHILD, 0, 0) && |d.subs| == 1 && p[0] == 0 && Chain(d.subs[0], p[1..]))
  }

  /** The lists differ at most at the place p and below, and in directories created on the way there. */
  ghost predicate SameBut(a: Listing, b: Listing, p: seq<nat>)
    decreases |p|
  {
    p == [] ||
    (b == a.(subs := b.subs) && p[0] < |b.subs| &&
     if p[0] < |a.subs| then b.subs == a.subs[p[0] := b.subs[p[0]]] && SameBut(a.subs[p[0]], b.subs[p[0]], p[1..])
     else b.subs == a.subs + [b.subs[p[0]]] && Chain(b.subs[p[0]], p[1..]))
  }

  lemma {:induction false} CreatedChain(d: Listing, names: seq<string>)
    requires d.subs == []
    ensures names != [] ==> |Create(d, names).1| > 0 && Create(d, names).1[0] == 0
    ensures d == Missing(d.name) ==> Chain(Create(d, names).0, Create(d, names).1)
    decreases |names|
  {
    if names != [] {
      var r := Create(Missing(names[0]), names[1..]);
      CreatedChain(Missing(names[0]), names[1..]);
      assert ([0] + r.1)[1..] == r.1;
    }
  }

  lemma {:induction false} CreatedSameBut(d: Listing, names: seq<string>)
    ensures SameBut(d, Create(d, names).0, Create(d, names).1)
    decreases |names|
  {
    if names != [] {
      var k := FindSub(d.subs, names[0]);
      hide FindSub;
      if k < |d.subs| {
        var r := Create(d.subs[k], names[1..]);
        CreatedSameBut(d.subs[k], names[1..]);
        assert ([k] + r.1)[1..] == r.1;
      } else {
        var r := Create(Missing(names[0]), names[1..]);
        CreatedChain(Missing(names[0]), names[1..]);
        assert ([k] + r.1)[1..] == r.1;
      }
    }
  }

  lemma {:induction false} PutChain(d: Listing, p: seq<nat>, x: Listing)
    requires Chain(d, p) && Reaches(d, p)
    ensures Chain(Put(d, p, x), p)
    decreases |p|
  {
    if p != [] { PutChain(d.subs[0], p[1..], x); }
  }

  lemma {:induction false} PutSameBut(a: Listing, b: Listing, p: seq<nat>, x: Listing)
    requires SameBut(a, b, p) && Reaches(b, p)
    ensures SameBut(a, Put(b, p, x), p)
    decreases |p|
  {
    if p != [] {
      if p[0] < |a.subs| {
        PutSameBut(a.subs[p[0]], b.subs[p[0]], p[1..], x);
      } else {
        PutChain(b.subs[p[0]], p[1..], x);
      }
    }
  }

  /** Neither place is at or inside the other. */
  predicate Aside(p: seq<nat>, q: seq<nat>)
    decreases |p|
  {
    p != [] && q != [] && (p[0] != q[0] || Aside(p[1..], q[1..]))
  }

  /** Directories that are not on the way to p nor at or below it are as they were. */
  lemma {:induction false} AsideSame(a: Listing, b: Listing, p: seq<nat>, q: seq<nat>)
    requires SameBut(a, b, p) && Reaches(a, q) && Aside(p, q)
    ensures Reaches(b, q) && Node(b, q) == Node(a, q)
    decreases |p|
  {
    if p[0] == q[0] { AsideSame(a.subs[p[0]], b.subs[p[0]], p[1..], q[1..]); }
  }

  /** Directories on the way keep their attributes and files. */
  lemma {:induction false} AncestorSame(a: Listing, b: Listing, p: seq<nat>, q: seq<nat>)
    requires SameBut(a, b, p) && Reaches(a, q) && q < p
    ensures Reaches(b, q) && Node(b, q) == Node(a, q).(subs := Node(b, q).subs)
    decreases |p|
  {
    if q != [] { AncestorSame(a.subs[p[0]], b.subs[p[0]], p[1..], q[1..]); }
  }

  // ---------------------------------------------------------------- the base directory

  /** No two slashes in a row. */
  predicate NoEmptyParts(path: string)
    requires IsAdcDirectoryPath(path)
    decreases |path|
  {
    path == "/" || (NextSlash(path, 1) != 1 && NoEmptyParts(path[NextSlash(path, 1)..]))
  }

  lemma {:induction false} SlashAgain(path: string, k: nat)
    requires path != "" && path[|path| - 1] == '/' && k < |path|
    ensures NextSlash(path, k) == k + NextSlash(path[k..], 0)
  {
    var end := NextSlash(path, k);
    assert path[k..][end - k] == '/';
    assert forall i :: 0 <= i < end - k ==> path[k..][i] == path[k + i];
  }

  lemma {:induction false} TokensFrom(path: string)
    requires path != "" && path[|path| - 1] == '/'
    ensures var end := NextSlash(path, 0);
      Tokens(path) == (if end == 0 then [] else [path[..end]]) + Tokens(path[end + 1..])
  {}

  lemma {:induction false} TailSlices(path: string, end: nat)
    requires 1 <= end < |path|
    ensures path[1..][..end - 1] == path[1..end] && path[1..][end..] == path[end + 1..] &&
      path[end..][1..] == path[end + 1..]
  {}

  lemma {:induction false} TokensBehind(path: string)
    requires IsAdcDirectoryPath(path)
    ensures Tokens(path) == Tokens(path[1..])
  {
    TokensFrom(path);
    hide Tokens;
    assert [] + Tokens(path[1..]) == Tokens(path[1..]);
  }

  lemma {:induction false} TailTokens(path: string)
    requires IsAdcDirectoryPath(path) && |path| > 1
    ensures var end := NextSlash(path, 1);
      Tokens(path[1..]) == (if end == 1 then [] else [path[1..end]]) + Tokens(path[end + 1..])
  {
    var end, tail := NextSlash(path, 1), path[1..];
    SlashAgain(path, 1);
    TokensFrom(tail);
    hide Tokens, NextSlash;
    TailSlices(path, end);
  }

  lemma {:induction false} TokensStep(path: string)
    requires IsAdcDirectoryPath(path) && path != "/"
    ensures |path| > 1
    ensures var end := NextSlash(path, 1);
      Tokens(path) == (if end == 1 then [] else [path[1..end]]) + Tokens(path[end..])
  {
    hide Tokens, NextSlash;
    assert |path| > 1;
    var end := NextSlash(path, 1);
    var rest := path[end..];
    TailSlices(path, end);
    assert rest[0] == '/' && rest[|rest| - 1] == '/';
    TokensBehind(path);
    TokensBehind(rest);
    TailTokens(path);
  }

  lemma {:induction false} NoTokens()
    ensures Tokens("/") == []
  {
    assert "/"[1..] == "";
  }

  lemma {:induction false} CreateFirst(d: Listing, name: string, names: seq<string>)
    ensures var k := FindSub(d.subs, name);
      var r := Create(if k < |d.subs| then d.subs[k] else Missing(name), names);
      Create(d, [name] + names) == (SetSub(d, k, r.0), [k] + r.1)
  {
    assert ([name] + names)[1..] == names;
    hide FindSub, SetSub;
  }

  /** Lookup by the first part of the path. */
  lemma {:induction false} FindStep(d: Listing, path: string)
    requires IsAdcDirectoryPath(path) && path != "/"
    ensures |path| > 1
    ensures var end := NextSlash(path, 1);
      var k := FindSub(d.subs, path[1..end]);
      FindDirectory(d, path) ==
        if k == |d.subs| then None
        else match FindDirectory(d.subs[k], path[end..])
          case None => None
          case Some(p) => Some([k] + p)
  {
    assert |path| > 1;
    var end := NextSlash(path, 1);
    var k := FindSub(d.subs, path[1..end]);
    hide FindSub;
    if end == |path| - 1 && k < |d.subs| {
      assert path[end..] == "/" && FindDirectory(d.subs[k], "/") == Some([]);
      assert [k] + [] == [k];
    }
  }

  /** A directory that is found is the one that createBaseDirectory goes to. */
  lemma {:induction false} FoundIsCreated(d: Listing, path: string, p: seq<nat>)
    requires WellNamed(d) && IsAdcDirectoryPath(path) && FindDirectory(d, path) == Some(p)
    ensures Create(d, Tokens(path)) == (d, p)
    decreases |path|
  {
    NoTokens();
    if path == "/" {
      CreateNothing(d);
    } else {
      FindStep(d, path);
      TokensStep(path);
      var end := NextSlash(path, 1);
      var name, rest := path[1..end], path[end..];
      var k := FindSub(d.subs, name);
      SameLength(d.subs[k].name, name);
      assert ValidName(d.subs[k].name) && WellNamed(d.subs[k]);
      hide Fold, Tokens, ValidName, WellNamed, FindSub, FindDirectory, Create, NextSlash;
      FoundIsCreated(d.subs[k], rest, FindDirectory(d.subs[k], rest).value);
      CreateFirst(d, name, Tokens(rest));
      assert SetSub(d, k, d.subs[k]) == d;
    }
  }

  /** The directory of the path is found once it was created, if the path has no empty parts. */
  lemma {:induction false} CreatedIsFound(d: Listing, path: string)
    requires IsAdcDirectoryPath(path) && NoEmptyParts(path)
    ensures var r := Create(d, Tokens(path)); FindDirectory(r.0, path) == Some(r.1)
    decreases |path|
  {
    NoTokens();
    if path == "/" {
      CreateNothing(d);
    } else {
      TokensStep(path);
      var end := NextSlash(path, 1);
      assert end != 1 && NoEmptyParts(path[end..]);
      var name, rest := path[1..end], path[end..];
      var k := FindSub(d.subs, name);
      var sub := if k < |d.subs| then d.subs[k] else Missing(name);
      hide Fold, Tokens, NoEmptyParts, FindSub, FindDirectory, Create, NextSlash;
      CreatedIsFound(sub, rest);
      CreateKeepsName(sub, Tokens(rest));
      CreateFirst(d, name, Tokens(rest));
      var r := Create(sub, Tokens(rest));
      FoundSet(d, name, r.0);
      FindStep(SetSub(d, k, r.0), path);
      hide IsAdcDirectoryPath, Same;
    }
  }

  lemma {:induction false} CreateKeepsName(d: Listing, names: seq<string>)
    ensures Create(d, names).0.name == d.name
  {}

  lemma {:induction false} FoundSet(d: Listing, name: string, sub: Listing)
    requires Same(sub.name, name)
    ensures var k := FindSub(d.subs, name); FindSub(SetSub(d, k, sub).subs, name) == k
  {
    var k := FindSub(d.subs, name);
    var r := FindSub(SetSub(d, k, sub).subs, name);
    hide Fold;
    assert SetSub(d, k, sub).subs[k] == sub;
    assert forall i :: 0 <= i < k ==> SetSub(d, k, sub).subs[i] == d.subs[i];
  }

  /** No directory has an empty name. */
  ghost predicate Named(d: Listing) {
    forall i :: 0 <= i < |d.subs| ==> d.subs[i].name != "" && Named(d.subs[i])
  }

  lemma {:induction false} WellNamedNamed(d: Listing)
    requires WellNamed(d)
    ensures Named(d)
  {
    forall i | 0 <= i < |d.subs| ensures d.subs[i].name != "" && Named(d.subs[i]) { WellNamedNamed(d.subs[i]); }
  }

  lemma {:induction false} CreatedNamed(d: Listing, names: seq<string>)
    requires Named(d) && forall i :: 0 <= i < |names| ==> names[i] != ""
    ensures Named(Create(d, names).0)
    decreases |names|
  {
    if names != [] {
      var k := FindSub(d.subs, names[0]);
      var sub := if k < |d.subs| then d.subs[k] else Missing(names[0]);
      CreateHead(d, names);
      hide FindSub, Create;
      CreatedNamed(sub, names[1..]);
      CreateKeepsName(sub, names[1..]);
      NamedSet(d, k, Create(sub, names[1..]).0);
    }
  }

  lemma {:induction false} NamedSet(d: Listing, k: nat, sub: Listing)
    requires Named(d) && k <= |d.subs| && Named(sub) && sub.name != ""
    ensures Named(SetSub(d, k, sub))
  {}

  lemma {:induction false} TokensNotEmpty(path: string)
    requires path == "" || path[|path| - 1] == '/'
    ensures forall i :: 0 <= i < |Tokens(path)| ==> Tokens(path)[i] != ""
    decreases |path|
  {
    if path != "" { TokensNotEmpty(path[NextSlash(path, 0) + 1..]); }
  }

  lemma {:induction false} FoundNoEmptyParts(d: Listing, path: string)
    requires Named(d) && IsAdcDirectoryPath(path) && FindDirectory(d, path).Some?
    ensures NoEmptyParts(path)
    decreases |path|
  {
    if path != "/" {
      FindStep(d, path);
      var end := NextSlash(path, 1);
      var k := FindSub(d.subs, path[1..end]);
      SameLength(d.subs[k].name, path[1..end]);
      hide Fold, FindSub, FindDirectory;
      FoundNoEmptyParts(d.subs[k], path[end..]);
    }
  }

  /** The source asserts that the base directory is found after it was created.  It is, exactly when
      its path has no empty parts. */
  lemma {:induction false} BaseFoundExactly(d: Listing, path: string)
    requires WellNamed(d) && IsAdcDirectoryPath(path)
    ensures var r := Create(d, Tokens(path));
      && (FindDirectory(r.0, path).Some? <==> NoEmptyParts(path))
      && (NoEmptyParts(path) ==> FindDirectory(r.0, path) == Some(r.1))
  {
    if NoEmptyParts(path) {
      CreatedIsFound(d, path);
    } else {
      WellNamedNamed(d);
      TokensNotEmpty(path);
      CreatedNamed(d, Tokens(path));
      hide WellNamed, Tokens, Create, NoEmptyParts, Named;
      if FindDirectory(Create(d, Tokens(path)).0, path).Some? { FoundNoEmptyParts(Create(d, Tokens(path)).0, path); }
    }
  }

  // ---------------------------------------------------------------- a partial load

  /** The content of a directory that was loaded before is cleared first. */
  function Cleared(root: Listing, base: string): Listing
    requires IsAdcDirectoryPath(base)
  {
    match FindDirectory(root, base)
    case None => root
    case Some(p) =>
      FoundHasPath(root, base, p);
      var d := Node(root, p);
      if d.info.kind == NORMAL then Put(root, p, d.(files := [], subs := [])) else root
  }

  /** The beginning of loadPartialImpl. */
  method StartPartial(root: Listing, base: string) returns (loader: ListLoader)
    requires IsAdcDirectoryPath(base)
    ensures fresh(loader) && loader.Now() == Loader(Cleared(root, base), [], false)
    ensures loader.base == base && loader.updating
  {
    var list := root;
    var oldDirectory := FindDirectory(root, base);
    if oldDirectory.Some? {
      FoundHasPath(root, base, oldDirectory.value);
      var d := Node(root, oldDirectory.value);
      if d.info.kind == NORMAL {
        list := Put(root, oldDirectory.value, d.(files := [], subs := []));
      }
    }
    loader := new ListLoader(list, base, true);
  }

  function LoadPartial(root: Listing, base: string, b: string, date: nat, es: seq<Element>): (Loader, Outcome)
    requires IsAdcDirectoryPath(base)
  {
    LoadDocument(Config(base, true), Cleared(root, base), b, date, es)
  }

  lemma {:induction false} CreatedAfterPut(d: Listing, names: seq<string>, p: seq<nat>, x: Listing)
    requires Create(d, names) == (d, p) && Reaches(d, p) && x.name == Node(d, p).name
    ensures Create(Put(d, p, x), names) == (Put(d, p, x), p)
    decreases |names|
  {
    if names != [] {
      var k := FindSub(d.subs, names[0]);
      SubCreated(d, names, p, x);
      CreatedAfterPut(d.subs[k], names[1..], p[1..], x);
      var y := Put(d.subs[k], p[1..], x);
      FoundSet(d, names[0], y);
      hide FindSub, Create, Put, Node, Reaches;
      CreateHead(SetSub(d, k, y), names);
      assert SetSub(SetSub(d, k, y), k, y) == SetSub(d, k, y);
      assert [k] + p[1..] == p;
    }
  }

  lemma {:induction false} SubCreated(d: Listing, names: seq<string>, p: seq<nat>, x: Listing)
    requires names != [] && Create(d, names) == (d, p) && Reaches(d, p) && x.name == Node(d, p).name
    ensures var k := FindSub(d.subs, names[0]);
      && p != [] && k == p[0] && k < |d.subs| && Reaches(d.subs[k], p[1..])
      && Create(d.subs[k], names[1..]) == (d.subs[k], p[1..]) && x.name == Node(d.subs[k], p[1..]).name
      && Put(d, p, x) == SetSub(d, k, Put(d.subs[k], p[1..], x)) && Put(d.subs[k], p[1..], x).name == d.subs[k].name
  {
    var k := FindSub(d.subs, names[0]);
    CreateHead(d, names);
    assert k < |d.subs|;
    var r := Create(d.subs[k], names[1..]);
    assert p == [k] + r.1 && p[1..] == r.1 && d == SetSub(d, k, r.0);
    assert r.0 == d.subs[k];
    PutKeepsName(d.subs[k], p[1..], x);
    hide FindSub, Create;
  }

  lemma {:induction false} PutKeepsName(d: Listing, p: seq<nat>, x: Listing)
    requires Reaches(d, p) && x.name == Node(d, p).name
    ensures Put(d, p, x).name == d.name
  {}

  /** A partial load changes nothing but the base directory, what is below it, and what had to be
      created on the way to it; also when it fails half-way.  If the document is about another
      directory, it is refused, with the content already cleared. */
  lemma {:induction false} PartialLoadFrame(root: Listing, base: string, b: string, date: nat, es: seq<Element>)
    requires WellNamed(root) && IsAdcDirectoryPath(base)
    ensures var r, p := LoadPartial(root, base, b, date, es), Create(root, Tokens(base)).1;
      if !Same(b, base) then r == (Loader(Cleared(root, base), [], false), WrongBase)
      else SameBut(root, r.0.root, p) && (r.1 == Fine ==> r.0.cur == p)
  {
    var c, list, names := Config(base, true), Cleared(root, base), Tokens(base);
    var p := Create(root, names).1;
    ClearedSameBut(root, base);
    DocumentRead(c, list, b, date, es);
    if Same(b, base) {
      var t := Create(list, names);
      var begun := Begun(c, Loader(list, [], false), b, date).0;
      assert begun.cur == p && begun.root == Put(t.0, p, Node(t.0, p).(info := Node(t.0, p).info.(date := date)));
      PutSameBut(root, t.0, p, Node(t.0, p).(info := Node(t.0, p).info.(date := date)));
      var meant := LoadAll(begun.Current(), es, true);
      PutSameBut(root, begun.root, p, meant.0);
      PutSameBut(root, begun.root, p, Finished(meant.0));
    }
  }

  /** Clearing does not change where the base directory is. */
  lemma {:induction false} ClearedSameBut(root: Listing, base: string)
    requires WellNamed(root) && IsAdcDirectoryPath(base)
    ensures var t, u := Create(root, Tokens(base)), Create(Cleared(root, base), Tokens(base));
      u.1 == t.1 && SameBut(root, u.0, t.1)
  {
    var names := Tokens(base);
    CreatedSameBut(root, names);
    match FindDirectory(root, base)
    case None =>
    case Some(p) =>
      FoundHasPath(root, base, p);
      FoundIsCreated(root, base, p);
      var d := Node(root, p);
      hide Tokens, FindDirectory, WellNamed;
      if d.info.kind == NORMAL {
        CreatedAfterPut(root, names, p, d.(files := [], subs := []));
        PutSameBut(root, root, p, d.(files := [], subs := []));
      }
  }
}
