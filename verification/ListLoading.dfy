/** The loader of file lists as it reads one tag after the other (filelist/ListLoader.cpp), with a cursor
    to the directory being filled; and the directory that a partial list is loaded into
    (filelist/DirectoryListing.cpp, createBaseDirectory). */
module ListLoading {

  import opened DirectoryTree
  import opened ListDocument
  import opened ListPaths
  import opened Names

  datatype Tag =
    | StartFile(file: FileAttributes)
    | StartDirectory(dir: DirAttributes, simple: bool)
    | StartListing(base: string, date: nat, simple: bool)
    | StartOther
    | EndDirectory
    | EndListing
    | EndOther
  {
    predicate IsStart() { StartFile? || StartDirectory? || StartListing? || StartOther? }
  }

  datatype Config = Config(base: string, updating: bool)

  datatype Loader = Loader(root: Listing, cur: seq<nat>, inListing: bool) {
    predicate Valid() { Reaches(root, cur) }

    function Current(): Listing
      requires Valid()
    {
      Node(root, cur)
    }

    function With(d: Listing): Loader
      requires Valid()
    {
      this.(root := Put(root, cur, d))
    }
  }

  // ---------------------------------------------------------------- the base directory

  /** The parts of a path; empty ones are left out. */
  function Tokens(path: string): seq<string>
    requires path == "" || path[|path| - 1] == '/'
    decreases |path|
  {
    if path == "" then []
    else
      var end := NextSlash(path, 0);
      (if end == 0 then [] else [path[..end]]) + Tokens(path[end + 1..])
  }

  function Missing(name: string): Listing { Tree(name, Info(INCOMPLETE_CHILD, 0, 0), [], []) }

  /** The tree with the directories of the path, and the place of the last one. */
  function Create(d: Listing, names: seq<string>): (r: (Listing, seq<nat>))
    ensures Reaches(r.0, r.1)
    decreases |names|
  {
    if names == [] then (d, [])
    else
      var k := FindSub(d.subs, names[0]);
      var r := Create(if k < |d.subs| then d.subs[k] else Missing(names[0]), names[1..]);
      assert ([k] + r.1)[1..] == r.1;
      (SetSub(d, k, r.0), [k] + r.1)
  }

  // ---------------------------------------------------------------- one tag

  function Finished(d: Listing): Listing { d.(info := d.info.(kind := NORMAL)) }

  function Begun(c: Config, l: Loader, base: string, date: nat): (Loader, Outcome)
    requires c.updating ==> IsAdcDirectoryPath(c.base)
  {
    if !c.updating then (l.(inListing := true), Fine)
    else if !Same(base, c.base) then (l, WrongBase)
    else
      var t := Create(l.root, Tokens(c.base));
      var d := Node(t.0, t.1);
      (Loader(Put(t.0, t.1, d.(info := d.info.(date := date))), t.1, true), Fine)
  }

  function Entered(c: Config, l: Loader, a: DirAttributes, simple: bool): (Loader, Outcome)
    requires l.Valid()
  {
    var d := l.Current();
    if !ValidName(a.name) then (l, BadName)
    else
      var t := Target(d, a);
      if t.0 < |d.subs| && !c.updating then (l, Duplicate)
      else (l.With(SetSub(d, t.0, t.1)).(cur := if simple then l.cur else l.cur + [t.0]), Fine)
  }

  /** A directory may only end below the root: the tags are balanced. */
  function Step(c: Config, l: Loader, tag: Tag): (Loader, Outcome)
    requires l.Valid() && (c.updating ==> IsAdcDirectoryPath(c.base))
  {
    if l.inListing then
      match tag
      case StartFile(a) => var r := LoadFile(l.Current(), a); (l.With(r.0), r.1)
      case StartDirectory(a, simple) => Entered(c, l, a, simple)
      case EndDirectory => (if l.cur == [] then l else l.(cur := l.cur[..|l.cur| - 1]), Fine)
      case EndListing => (l.With(Finished(l.Current())).(inListing := false), Fine)
      case _ => (l, Fine)
    else if tag.StartListing? then
      var b := Begun(c, l, tag.base, tag.date);
      if b.1 == Fine && tag.simple then
        BegunValid(c, l, tag.base, tag.date);
        (b.0.With(Finished(b.0.Current())).(inListing := false), Fine)
      else b
    else (l, Fine)
  }

  lemma {:induction false} BegunValid(c: Config, l: Loader, base: string, date: nat)
    requires l.Valid() && (c.updating ==> IsAdcDirectoryPath(c.base))
    ensures Begun(c, l, base, date).0.Valid()
  {
    hide Create, Put, Node, Same, Tokens;
    if c.updating {
      var t := Create(l.root, Tokens(c.base));
      NodePut(t.0, t.1, Node(t.0, t.1).(info := Node(t.0, t.1).info.(date := date)));
    }
  }

  lemma {:induction false} StepValid(c: Config, l: Loader, tag: Tag)
    requires l.Valid() && (c.updating ==> IsAdcDirectoryPath(c.base))
    ensures Step(c, l, tag).0.Valid()
  {
    hide Create, LoadFile, Same, Tokens, IsAdcDirectoryPath, ValidName, Target, Begun;
    var d := l.Current();
    if l.inListing {
      match tag
      case StartFile(a) => NodePut(l.root, l.cur, LoadFile(d, a).0);
      case StartDirectory(a, simple) =>
        var t := Target(d, a);
        TargetInside(d, a);
        NodePut(l.root, l.cur, SetSub(d, t.0, t.1));
        Below(Put(l.root, l.cur, SetSub(d, t.0, t.1)), l.cur, t.0, t.1);
      case EndDirectory => if l.cur != [] { ParentReached(l.root, l.cur); }
      case EndListing => NodePut(l.root, l.cur, Finished(d));
      case _ =>
    } else if tag.StartListing? {
      BegunValid(c, l, tag.base, tag.date);
      var b := Begun(c, l, tag.base, tag.date).0;
      NodePut(b.root, b.cur, Finished(b.Current()));
    }
  }

  lemma {:induction false} TargetInside(d: Listing, a: DirAttributes)
    ensures Target(d, a).0 <= |d.subs|
  {}

  // ---------------------------------------------------------------- the loader

  class ListLoader {
    var root: Listing
    var cur: seq<nat>
    var inListing: bool
    const base: string
    const updating: bool

    constructor (root: Listing, base: string, updating: bool)
      ensures Now() == Loader(root, [], false) && this.base == base && this.updating == updating
    {
      this.root, cur, inListing := root, [], false;
      this.base, this.updating := base, updating;
    }

    function Now(): Loader
      reads this
    {
      Loader(root, cur, inListing)
    }

    function Setup(): Config { Config(base, updating) }

    predicate Ready()
      reads this
    {
      Now().Valid() && (updating ==> IsAdcDirectoryPath(base))
    }

    static method ValidateName(name: string) returns (ok: bool)
      ensures ok == ValidName(name)
    {
      if name == "" {
        return false;
      }
      if name == "." || name == ".." {
        return false;
      }
      ok := '/' !in name;
    }

    method LoadFileTag(a: FileAttributes) returns (o: Outcome)
      requires Ready() && inListing
      modifies this`root
      ensures (Now(), o) == Step(Setup(), old(Now()), StartFile(a))
    {
      PutNode(root, cur);
      var valid := ValidateName(a.name);
      if !valid {
        return BadName;
      }
      if a.size.None? {
        return Fine;
      }
      if a.hash.None? {
        return Fine;
      }
      var d := Node(root, cur);
      root := Put(root, cur, d.(files := d.files + [File(a.name, a.size.value, a.hash.value, a.date)]));
      o := Fine;
    }

    method LoadDirectory(a: DirAttributes) returns (o: Outcome)
      requires Ready() && inListing
      modifies this`root, this`cur
      ensures (Now(), o) == Step(Setup(), old(Now()), StartDirectory(a, false))
    {
      var valid := ValidateName(a.name);
      if !valid {
        return BadName;
      }
      var d := Node(root, cur);
      var k := FindSub(d.subs, a.name);
      if updating && k < |d.subs| {
        var sub := d.subs[k];
        if !a.incomplete {
          sub := sub.(info := sub.info.(kind := NORMAL));
        }
        sub := sub.(info := sub.info.(date := a.date));
        root := Put(root, cur, d.(subs := d.subs[k := sub]));
      } else {
        if k < |d.subs| {
          return Duplicate;
        }
        root := Put(root, cur, d.(subs := d.subs + [Tree(a.name, Info(TypeOf(a), a.date, a.size), [], [])]));
      }
      cur := cur + [k];
      o := Fine;
    }

    /** createBaseDirectory: the place of the directory with the path, created if it is missing. */
    method CreateBaseDirectory(path: string) returns (p: seq<nat>)
      requires IsAdcDirectoryPath(path)
      modifies this`root
      ensures (root, p) == Create(old(root), Tokens(path))
    {
      var sl := Tokens(path);
      p := [];
      hide Tokens, FindSub, Create, Put, Node, Reaches;
      PutRoot(root, Create(root, sl).0);
      assert sl[0..] == sl && [] + Create(root, sl).1 == Create(root, sl).1;
      for i := 0 to |sl|
        invariant Reaches(root, p)
        invariant var rest := Create(Node(root, p), sl[i..]);
          Create(old(root), sl) == (Put(root, p, rest.0), p + rest.1)
      {
        var d := Node(root, p);
        var k := FindSub(d.subs, sl[i]);
        var sub := if k < |d.subs| then d.subs[k] else Missing(sl[i]);
        CreateStep(root, p, sl[i..]);
        if k == |d.subs| {
          root := Put(root, p, d.(subs := d.subs + [Missing(sl[i])]));
        }
        p := p + [k];
        assert sl[i..][1..] == sl[i + 1..];
      }
      PutNode(root, p);
      CreateNothing(Node(root, p));
      assert sl[|sl|..] == [] && p + [] == p;
    }

    method LoadListing(b: string, date: nat) returns (o: Outcome)
      requires Ready() && !inListing
      modifies this
      ensures (Now(), o) == Step(Setup(), old(Now()), StartListing(b, date, false))
    {
      if updating {
        if !Same(b, base) {
          return WrongBase;
        }
        cur := CreateBaseDirectory(base);
        var d := Node(root, cur);
        root := Put(root, cur, d.(info := d.info.(date := date)));
      }
      inListing := true;
      o := Fine;
    }

    /** A failure stands for the exception that ends the loading. */
    method StartTag(tag: Tag) returns (o: Outcome)
      requires Ready() && tag.IsStart()
      modifies this
      ensures (Now(), o) == Step(Setup(), old(Now()), tag)
    {
      o := Fine;
      hide Begun, LoadFile, Entered, Put, Node, Reaches;
      StepValid(Setup(), Now(), if tag.StartDirectory? then StartDirectory(tag.dir, false) else tag);
      if inListing {
        match tag
        case StartFile(a) => o := LoadFileTag(a);
        case StartDirectory(a, simple) =>
          SimpleDirectory(Setup(), Now(), a);
          o := LoadDirectory(a);
          if o == Fine && simple {
            EndTag(EndDirectory);
          }
        case _ =>
      } else if tag.StartListing? {
        SimpleListing(Setup(), Now(), tag.base, tag.date);
        o := LoadListing(tag.base, tag.date);
        if o == Fine && tag.simple {
          EndTag(EndListing);
        }
      }
    }

    method EndTag(tag: Tag)
      requires Ready() && !tag.IsStart() && (inListing && tag.EndDirectory? ==> cur != [])
      modifies this
      ensures (Now(), Fine) == Step(Setup(), old(Now()), tag)
    {
      if inListing {
        if tag.EndDirectory? {
          cur := cur[..|cur| - 1];
        } else if tag.EndListing? {
          var d := Node(root, cur);
          root := Put(root, cur, d.(info := d.info.(kind := NORMAL)));
          inListing := false;
        }
      }
    }
  }

  /** A self-closing tag is a start and an end. */
  lemma {:induction false} SimpleDirectory(c: Config, l: Loader, a: DirAttributes)
    requires l.Valid() && l.inListing && (c.updating ==> IsAdcDirectoryPath(c.base))
    ensures var s := Step(c, l, StartDirectory(a, false));
      && s.0.Valid() && s.0.inListing
      && (s.1 != Fine ==> Step(c, l, StartDirectory(a, true)) == s)
      && (s.1 == Fine ==> s.0.cur != [] && Step(c, l, StartDirectory(a, true)) == Step(c, s.0, EndDirectory))
  {
    StepValid(c, l, StartDirectory(a, false));
    hide Put, Node, Reaches, Target, ValidName, SetSub;
    var s := Step(c, l, StartDirectory(a, false));
    if s.1 == Fine {
      assert s.0.cur[..|s.0.cur| - 1] == l.cur;
    }
  }

  lemma {:induction false} SimpleListing(c: Config, l: Loader, base: string, date: nat)
    requires l.Valid() && !l.inListing && (c.updating ==> IsAdcDirectoryPath(c.base))
    ensures var s := Step(c, l, StartListing(base, date, false));
      && s.0.Valid()
      && (s.1 != Fine ==> Step(c, l, StartListing(base, date, true)) == s)
      && (s.1 == Fine ==> s.0.inListing && Step(c, l, StartListing(base, date, true)) == Step(c, s.0, EndListing))
  {
    BegunValid(c, l, base, date);
    assert Begun(c, l, base, date).1 == Fine ==> Begun(c, l, base, date).0.inListing;
    hide Begun, Put, Node, Reaches;
  }

  lemma {:induction false} CreateNothing(d: Listing)
    ensures Create(d, []) == (d, [])
  {}

  /** Changing a subdirectory in the tree is changing the directory. */
  lemma {:induction false} InsideSub(root: Listing, p: seq<nat>, k: nat, sub: Listing, x: Listing)
    requires Reaches(root, p) && k <= |Node(root, p).subs|
    ensures var d := Node(root, p);
      var next := Put(root, p, SetSub(d, k, sub));
      && Reaches(next, p + [k]) && Node(next, p + [k]) == sub
      && Put(next, p + [k], x) == Put(root, p, SetSub(d, k, x))
  {
    var d := Node(root, p);
    var n := SetSub(d, k, sub);
    hide Reaches, Node, Put;
    NodePut(root, p, n);
    PutPut(root, p, n, SetSub(d, k, x));
    Below(Put(root, p, n), p, k, x);
    assert n.(subs := n.subs[k := x]) == SetSub(d, k, x);
  }

  lemma {:induction false} CreateHead(d: Listing, names: seq<string>)
    requires names != []
    ensures var k := FindSub(d.subs, names[0]);
      var rest := Create(if k < |d.subs| then d.subs[k] else Missing(names[0]), names[1..]);
      Create(d, names) == (SetSub(d, k, rest.0), [k] + rest.1)
  {
    hide SetSub, FindSub;
  }

  lemma {:induction false} PathJoin(p: seq<nat>, k: nat, q: seq<nat>)
    ensures (p + [k]) + q == p + ([k] + q)
  {}

  /** One directory of the path: the tree with it, and what is left to do there. */
  lemma {:induction false} CreateStep(root: Listing, p: seq<nat>, names: seq<string>)
    requires Reaches(root, p) && names != []
    ensures var d := Node(root, p);
      var k := FindSub(d.subs, names[0]);
      var next := if k < |d.subs| then root else Put(root, p, d.(subs := d.subs + [Missing(names[0])]));
      && Reaches(next, p + [k])
      && var rest := Create(Node(next, p + [k]), names[1..]);
      (Put(root, p, Create(d, names).0), p + Create(d, names).1) == (Put(next, p + [k], rest.0), (p + [k]) + rest.1)
  {
    var d := Node(root, p);
    var k := FindSub(d.subs, names[0]);
    var sub := if k < |d.subs| then d.subs[k] else Missing(names[0]);
    var rest := Create(sub, names[1..]);
    CreateHead(d, names);
    hide FindSub, Reaches, Node, Put, Create;
    if k < |d.subs| {
      Below(root, p, k, rest.0);
    } else {
      InsideSub(root, p, k, sub, rest.0);
      hide SetSub;
    }
    PathJoin(p, k, rest.1);
  }

  // ---------------------------------------------------------------- a whole document

  function TagsOf(es: seq<Element>): seq<Tag>
    decreases es, 0
  {
    if es == [] then [] else TagsOf(es[..|es| - 1]) + TagsOfElement(es[|es| - 1])
  }

  function TagsOfElement(e: Element): seq<Tag>
    decreases e, 1
  {
    match e
    case FileElement(a) => [StartFile(a)]
    case DirElement(a, simple, content) =>
      if simple && content == [] then [StartDirectory(a, true)]
      else [StartDirectory(a, false)] + TagsOf(content) + [EndDirectory]
  }

  /** The loader reads tags until one fails. */
  function Feed(c: Config, l: Loader, tags: seq<Tag>): (r: (Loader, Outcome))
    requires l.Valid() && (c.updating ==> IsAdcDirectoryPath(c.base))
    ensures r.0.Valid()
    decreases |tags|
  {
    if tags == [] then (l, Fine)
    else
      StepValid(c, l, tags[0]);
      var s := Step(c, l, tags[0]);
      if s.1 != Fine then s else Feed(c, s.0, tags[1..])
  }

  lemma {:induction false} FeedConcat(c: Config, l: Loader, a: seq<Tag>, b: seq<Tag>)
    requires l.Valid() && (c.updating ==> IsAdcDirectoryPath(c.base))
    ensures var r := Feed(c, l, a); Feed(c, l, a + b) == if r.1 != Fine then r else Feed(c, r.0, b)
    decreases |a|
  {
    hide Step, Loader.Valid;
    if a == [] {
      assert a + b == b;
    } else {
      StepValid(c, l, a[0]);
      assert (a + b)[0] == a[0] && (a + b)[1..] == a[1..] + b;
      var s := Step(c, l, a[0]);
      if s.1 == Fine { FeedConcat(c, s.0, a[1..], b); }
    }
  }

  lemma {:induction false} FeedOne(c: Config, l: Loader, tag: Tag)
    requires l.Valid() && (c.updating ==> IsAdcDirectoryPath(c.base))
    ensures Feed(c, l, [tag]) == Step(c, l, tag)
  {
    StepValid(c, l, tag);
    hide Step;
    var s := Step(c, l, tag);
    if s.1 == Fine { assert Feed(c, s.0, [tag][1..]) == (s.0, Fine); }
  }

  /** What was read is what the document means for the directory at the cursor, and the cursor is back. */
  ghost predicate Read(l: Loader, r: (Loader, Outcome), meaning: (Listing, Outcome))
    requires l.Valid()
  {
    && r.1 == meaning.1 && r.0.root == Put(l.root, l.cur, meaning.0) && r.0.inListing
    && (r.1 == Fine ==> r.0.cur == l.cur)
  }

  lemma {:induction false} ReadsDocument(c: Config, l: Loader, es: seq<Element>)
    requires l.Valid() && l.inListing && (c.updating ==> IsAdcDirectoryPath(c.base))
    ensures Read(l, Feed(c, l, TagsOf(es)), LoadAll(l.Current(), es, c.updating))
    decreases es, 0
  {
    PutNode(l.root, l.cur);
    if es != [] {
      var front, e := es[..|es| - 1], es[|es| - 1];
      var before, meant := Feed(c, l, TagsOf(front)), LoadAll(l.Current(), front, c.updating);
      ReadsDocument(c, l, front);
      FeedConcat(c, l, TagsOf(front), TagsOfElement(e));
      assert TagsOf(es) == TagsOf(front) + TagsOfElement(e);
      if meant.1 == Fine {
        NodePut(l.root, l.cur, meant.0);
        ReadsElement(c, before.0, e);
        PutPut(l.root, l.cur, meant.0, LoadElement(meant.0, e, c.updating).0);
      }
      hide TagsOf, TagsOfElement, Feed, LoadElement, Put, Node, Reaches;
    }
  }

  lemma {:induction false} ReadsDirectory(c: Config, l: Loader, e: Element)
    requires l.Valid() && l.inListing && (c.updating ==> IsAdcDirectoryPath(c.base)) && e.DirElement?
    ensures Read(l, Feed(c, l, TagsOfElement(e)), LoadElement(l.Current(), e, c.updating))
    decreases e, 0
  {
    var a, d := e.dir, l.Current();
    var t := Target(d, a);
    var start := StartDirectory(a, e.simple && e.content == []);
    var s := Step(c, l, start);
    PutNode(l.root, l.cur);
    TargetInside(d, a);
    StepValid(c, l, start);
    FeedOne(c, l, start);
    if s.1 != Fine {
      FeedConcat(c, l, [start], TagsOf(e.content) + [EndDirectory]);
      assert [start] + (TagsOf(e.content) + [EndDirectory]) == [start] + TagsOf(e.content) + [EndDirectory];
      hide TagsOf, Feed, LoadAll, Put, Node, Reaches, Target, ValidName;
    } else if start.simple {
      assert LoadAll(t.1, e.content, c.updating) == (t.1, Fine);
      hide TagsOf, Feed, LoadAll, Put, Node, Reaches, Target, ValidName;
    } else {
      InsideSub(l.root, l.cur, t.0, t.1, LoadAll(t.1, e.content, c.updating).0);
      ReadsDocument(c, s.0, e.content);
      ReadsContent(c, l, s.0, start, e.content);
      hide TagsOf, Feed, LoadAll, Put, Node, Reaches, Target, ValidName;
    }
  }

  /** The tags of a directory that is not written as one tag. */
  lemma {:induction false} ReadsContent(c: Config, l: Loader, inside: Loader, start: Tag, content: seq<Element>)
    requires l.Valid() && l.inListing && (c.updating ==> IsAdcDirectoryPath(c.base))
    requires Step(c, l, start) == (inside, Fine) && inside.Valid() && inside.inListing
    requires exists k :: inside.cur == l.cur + [k]
    requires Read(inside, Feed(c, inside, TagsOf(content)), LoadAll(inside.Current(), content, c.updating))
    ensures var r, f := Feed(c, inside, TagsOf(content)), Feed(c, l, [start] + TagsOf(content) + [EndDirectory]);
      f.1 == r.1 && f.0.root == r.0.root && f.0.inListing && (f.1 == Fine ==> f.0.cur == l.cur)
  {
    var r := Feed(c, inside, TagsOf(content));
    FeedOne(c, l, start);
    FeedConcat(c, l, [start], TagsOf(content));
    FeedConcat(c, l, [start] + TagsOf(content), [EndDirectory]);
    FeedOne(c, r.0, EndDirectory);
    hide TagsOf, Feed, LoadAll, Put, Node, Reaches;
    assert forall k :: (l.cur + [k])[..|l.cur|] == l.cur;
  }

  lemma {:induction false} ReadsElement(c: Config, l: Loader, e: Element)
    requires l.Valid() && l.inListing && (c.updating ==> IsAdcDirectoryPath(c.base))
    ensures Read(l, Feed(c, l, TagsOfElement(e)), LoadElement(l.Current(), e, c.updating))
    decreases e, 1
  {
    match e
    case FileElement(a) =>
      FeedOne(c, l, StartFile(a));
    case DirElement(a, simple, content) =>
      ReadsDirectory(c, l, e);
  }
}
