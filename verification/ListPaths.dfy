/** Paths of directories in a file list (filelist/DirectoryListingDirectory.cpp, getAdcPathUnsafe;
    filelist/DirectoryListing.cpp, findDirectoryUnsafe): printing and lookup are inverse. */
module ListPaths {

  import opened DirectoryTree
  import opened Names
  import opened Options

  predicate IsAdcDirectoryPath(path: string) {
    path != "" && path[0] == '/' && path[|path| - 1] == '/'
  }

  /** validateName, in filelist/ListLoader.cpp */
  predicate ValidName(name: string) {
    name != "" && name != "." && name != ".." && '/' !in name
  }

  /** Valid names throughout, and different ones for siblings. */
  ghost predicate WellNamed<A>(d: Tree<A>) {
    && Distinct(d.subs)
    && forall i :: 0 <= i < |d.subs| ==> ValidName(d.subs[i].name) && WellNamed(d.subs[i])
  }

  /** getAdcPathUnsafe: the path of the parent, the name, a slash. */
  function AdcPath<A>(root: Tree<A>, p: seq<nat>): string
    requires Reaches(root, p)
  {
    if p == [] then "/"
    else
      ParentReached(root, p);
      AdcPath(root, p[..|p| - 1]) + Node(root, p).name + "/"
  }

  lemma {:induction false} ParentReached<A>(d: Tree<A>, p: seq<nat>)
    requires p != [] && Reaches(d, p)
    ensures Reaches(d, p[..|p| - 1])
    ensures p[|p| - 1] < |Node(d, p[..|p| - 1]).subs| && Node(d, p[..|p| - 1]).subs[p[|p| - 1]] == Node(d, p)
  {
    if |p| > 1 {
      ParentReached(d.subs[p[0]], p[1..]);
      assert p[1..][..|p| - 2] == p[..|p| - 1][1..];
    }
  }

  /** The same path from the top down. */
  function Down<A>(d: Tree<A>, p: seq<nat>): string
    requires Reaches(d, p)
  {
    if p == [] then "/" else "/" + d.subs[p[0]].name + Down(d.subs[p[0]], p[1..])
  }

  lemma {:induction false} DownStep<A>(d: Tree<A>, p: seq<nat>)
    requires p != [] && Reaches(d, p)
    ensures Reaches(d, p[..|p| - 1]) && Down(d, p) == Down(d, p[..|p| - 1]) + Node(d, p).name + "/"
  {
    ParentReached(d, p);
    if |p| > 1 {
      DownStep(d.subs[p[0]], p[1..]);
      assert p[1..][..|p| - 2] == p[..|p| - 1][1..];
    }
  }

  lemma {:induction false} PathsAgree<A>(root: Tree<A>, p: seq<nat>)
    requires Reaches(root, p)
    ensures AdcPath(root, p) == Down(root, p)
  {
    if p != [] {
      DownStep(root, p);
      PathsAgree(root, p[..|p| - 1]);
    }
  }

  // ---------------------------------------------------------------- lookup

  /** The next slash; the path ends with one. */
  function NextSlash(path: string, from: nat): (end: nat)
    requires from < |path| && path[|path| - 1] == '/'
    ensures from <= end < |path| && path[end] == '/' && forall i :: from <= i < end ==> path[i] != '/'
    decreases |path| - from
  {
    if path[from] == '/' then from else NextSlash(path, from + 1)
  }

  /** The position of the directory with this name, in any case, or the number of directories. */
  function FindSub<A>(ds: seq<Tree<A>>, name: string): (k: nat)
    ensures k <= |ds| && (k < |ds| ==> Same(ds[k].name, name))
    ensures forall i :: 0 <= i < k ==> !Same(ds[i].name, name)
  {
    if ds == [] || Same(ds[0].name, name) then 0 else 1 + FindSub(ds[1..], name)
  }

  function FindDirectory<A>(d: Tree<A>, path: string): Option<seq<nat>>
    requires IsAdcDirectoryPath(path)
    decreases |path|
  {
    if path == "/" then Some([])
    else
      var end := NextSlash(path, 1);
      var k := FindSub(d.subs, path[1..end]);
      if k == |d.subs| then None
      else if end == |path| - 1 then Some([k])
      else match FindDirectory(d.subs[k], path[end..])
        case None => None
        case Some(p) => Some([k] + p)
  }

  lemma {:induction false} SameConcat(a: string, b: string, c: string, d: string)
    requires Same(a, b) && Same(c, d)
    ensures Same(a + c, b + d)
  {
    FoldConcat(a, c);
    FoldConcat(b, d);
  }

  /** What is found has the path that was asked for, but for case. */
  lemma {:induction false} FoundHasPath<A>(d: Tree<A>, path: string, p: seq<nat>)
    requires IsAdcDirectoryPath(path) && FindDirectory(d, path) == Some(p)
    ensures Reaches(d, p) && Same(Down(d, p), path)
    decreases |path|
  {
    if path != "/" {
      var end := NextSlash(path, 1);
      var k := FindSub(d.subs, path[1..end]);
      var rest := path[end..];
      if end == |path| - 1 {
        assert p == [k] && p[1..] == [] && rest == "/";
        assert Same("/", rest);
      } else {
        var q := FindDirectory(d.subs[k], rest).value;
        FoundHasPath(d.subs[k], rest, q);
        assert p[1..] == q;
      }
      hide FindDirectory;
      SamePath(d.subs[k].name, Down(d.subs[k], p[1..]), path, end);
    }
  }

  lemma {:induction false} SamePath(name: string, rest: string, path: string, end: nat)
    requires 1 <= end < |path| && path[0] == '/' && Same(name, path[1..end]) && Same(rest, path[end..])
    ensures Same("/" + name + rest, path)
  {
    hide Fold;
    SameConcat("/", "/", name, path[1..end]);
    SameConcat("/" + name, "/" + path[1..end], rest, path[end..]);
    assert path == "/" + path[1..end] + path[end..];
  }

  /** The slashes of a path stay where they are whatever the case. */
  lemma {:induction false} SameParts(name: string, rest: string, path: string)
    requires Same("/" + name + rest, path) && '/' !in name && rest != "" && rest[0] == '/'
    requires IsAdcDirectoryPath(path)
    ensures |path| > 1 && NextSlash(path, 1) == |name| + 1 && Same(name, path[1..|name| + 1]) &&
      Same(rest, path[|name| + 1..])
  {
    var whole, n := "/" + name + rest, |name| + 1;
    assert |Fold(whole)| == |whole| && |Fold(path)| == |path|;
    forall i | 0 <= i < |path| ensures Lower(whole[i]) == Lower(path[i]) {
      assert Fold(whole)[i] == Fold(path)[i];
    }
    forall i | 1 <= i < n ensures path[i] != '/' {
      assert whole[i] == name[i - 1];
    }
    assert whole[n] == '/';
    assert forall i :: 0 <= i < |name| ==> Fold(name)[i] == Fold(path[1..n])[i];
    assert forall i :: 0 <= i < |rest| ==> Fold(rest)[i] == Fold(path[n..])[i];
  }

  lemma {:induction false} SubFound<A>(ds: seq<Tree<A>>, k: nat, name: string)
    requires Distinct(ds) && k < |ds| && Same(ds[k].name, name)
    ensures FindSub(ds, name) == k
  {
    hide Fold;
    var j := FindSub(ds, name);
    assert j <= k;
    assert j < k ==> !Same(ds[j].name, ds[k].name);
  }

  lemma {:induction false} SameLength(a: string, b: string)
    requires Same(a, b)
    ensures |a| == |b|
  {
    assert |Fold(a)| == |a| && |Fold(b)| == |b|;
  }

  lemma {:induction false} OnlySlash(path: string)
    requires Same("/", path)
    ensures path == "/"
  {
    SameLength("/", path);
    assert Fold("/")[0] == Fold(path)[0];
  }

  lemma {:induction false} PathIsFound<A>(d: Tree<A>, path: string, p: seq<nat>)
    requires WellNamed(d) && Reaches(d, p) && IsAdcDirectoryPath(path) && Same(Down(d, p), path)
    ensures FindDirectory(d, path) == Some(p)
    decreases |path|
  {
    hide Fold;
    SameLength(Down(d, p), path);
    if p == [] {
      OnlySlash(path);
    } else {
      var sub, rest := d.subs[p[0]], p[1..];
      DownStarts(sub, rest);
      SameParts(sub.name, Down(sub, rest), path);
      SubFound(d.subs, p[0], path[1..|sub.name| + 1]);
      var end := |sub.name| + 1;
      assert p == [p[0]] + rest;
      if rest == [] {
        assert end == |path| - 1 && p == [p[0]];
      } else {
        PathIsFound(sub, path[end..], rest);
      }
    }
  }

  lemma {:induction false} DownStarts<A>(d: Tree<A>, p: seq<nat>)
    requires Reaches(d, p)
    ensures IsAdcDirectoryPath(Down(d, p)) && (p != [] ==> |Down(d, p)| > 1)
  {
    if p != [] { DownStarts(d.subs[p[0]], p[1..]); }
  }

  /** Lookup finds a directory exactly when its printed path is the one asked for, in any case.  So a
      directory is found by its own path, and nothing else is. */
  lemma {:induction false} LookupExactly<A>(root: Tree<A>, path: string, p: seq<nat>)
    requires WellNamed(root) && IsAdcDirectoryPath(path)
    ensures FindDirectory(root, path) == Some(p) <==> Reaches(root, p) && Same(AdcPath(root, p), path)
  {
    if FindDirectory(root, path) == Some(p) {
      FoundHasPath(root, path, p);
      PathsAgree(root, p);
    }
    if Reaches(root, p) && Same(AdcPath(root, p), path) {
      PathsAgree(root, p);
      PathIsFound(root, path, p);
    }
  }
}
