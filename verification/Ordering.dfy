/** Byte-wise string order (std::string's operator<) and the sorted path container
    (core/classes/SortedVector.h with PathUtil::pathSort). */
module Ordering {

  /** Lexicographic order. */
  predicate Less(a: string, b: string) {
    b != [] && (a == [] || a[0] < b[0] || (a[0] == b[0] && Less(a[1..], b[1..])))
  }

  lemma {:induction false} LessIrreflexive(a: string)
    ensures !Less(a, a)
  {
    if a != [] { LessIrreflexive(a[1..]); }
  }

  lemma {:induction false} LessTransitive(a: string, b: string, c: string)
    requires Less(a, b) && Less(b, c)
    ensures Less(a, c)
  {
    if a != [] && a[0] == b[0] && b[0] == c[0] { LessTransitive(a[1..], b[1..], c[1..]); }
  }

  lemma {:induction false} LessTotal(a: string, b: string)
    ensures Less(a, b) || a == b || Less(b, a)
  {
    if a != [] && b != [] && a[0] == b[0] {
      LessTotal(a[1..], b[1..]);
      assert a == [a[0]] + a[1..] && b == [b[0]] + b[1..];
    }
  }

  lemma {:induction false} LessAsymmetric(a: string, b: string)
    ensures !(Less(a, b) && Less(b, a))
  {
    hide Less;
    if Less(a, b) && Less(b, a) {
      LessTransitive(a, b, a);
      LessIrreflexive(a);
    }
  }

  // ---------------------------------------------------------------- paths

  const SEPARATOR := '/'

  /** getFilePath: everything up to the last separator; the whole text if there is none. */
  function FilePath(path: string): string {
    if SEPARATOR in path then UpToLast(path) else path
  }

  function UpToLast(path: string): string
    requires SEPARATOR in path
  {
    var last := |path| - 1;
    if path[last] == SEPARATOR then path
    else assert path == path[..last] + [path[last]]; UpToLast(path[..last])
  }

  /** pathSort: by directory first, then by the whole path. */
  predicate PathLess(a: string, b: string) {
    Less(FilePath(a), FilePath(b)) || (FilePath(a) == FilePath(b) && Less(a, b))
  }

  lemma {:induction false} PathLessOrder(a: string, b: string, c: string)
    ensures !PathLess(a, a)
    ensures PathLess(a, b) || a == b || PathLess(b, a)
    ensures PathLess(a, b) ==> !PathLess(b, a)
    ensures PathLess(a, b) && PathLess(b, c) ==> PathLess(a, c)
  {
    var da, db, dc := FilePath(a), FilePath(b), FilePath(c);
    hide FilePath, Less;
    LessIrreflexive(a); LessIrreflexive(da); LessIrreflexive(db);
    LessTotal(a, b); LessTotal(da, db);
    if Less(a, b) && Less(b, a) { LessTransitive(a, b, a); }
    if Less(da, db) && Less(db, da) { LessTransitive(da, db, da); }
    if Less(a, b) && Less(b, c) { LessTransitive(a, b, c); }
    if Less(da, db) && Less(db, dc) { LessTransitive(da, db, dc); }
  }

  /** A directory is a text that ends with a separator. */
  predicate IsDirectory(dir: string) {
    dir != "" && dir[|dir| - 1] == SEPARATOR
  }

  lemma {:induction false} FilePathOf(dir: string, name: string)
    requires IsDirectory(dir) && SEPARATOR !in name
    ensures FilePath(dir + name) == dir
  {
    var path := dir + name;
    assert path[|dir| - 1] == SEPARATOR;
    UpToLastOf(dir, name);
  }

  lemma {:induction false} UpToLastOf(dir: string, name: string)
    requires IsDirectory(dir) && SEPARATOR !in name
    ensures SEPARATOR in dir + name && UpToLast(dir + name) == dir
    decreases |name|
  {
    var path := dir + name;
    assert path[|dir| - 1] == SEPARATOR;
    if name == "" {
      assert path == dir;
    } else {
      assert path[..|path| - 1] == dir + name[..|name| - 1];
      UpToLastOf(dir, name[..|name| - 1]);
    }
  }

  lemma {:induction false} BehindDirectory(path: string, dir: string) returns (name: string)
    requires IsDirectory(dir) && FilePath(path) == dir
    ensures path == dir + name && SEPARATOR !in name
  {
    assert dir[|dir| - 1] == SEPARATOR;
    assert SEPARATOR in path;
    name := BehindLast(path);
  }

  lemma {:induction false} BehindLast(path: string) returns (name: string)
    requires SEPARATOR in path
    ensures path == UpToLast(path) + name && SEPARATOR !in name
  {
    var last := |path| - 1;
    if path[last] == SEPARATOR {
      name := "";
    } else {
      assert path == path[..last] + [path[last]];
      name := BehindLast(path[..last]);
      name := name + [path[last]];
    }
  }

  /** Files of different directories are in the order of the directories, files of one directory in the
      order of their names. */
  lemma {:induction false} DirectoryFirst(dir: string, name: string, dir2: string, name2: string)
    requires IsDirectory(dir) && SEPARATOR !in name && IsDirectory(dir2) && SEPARATOR !in name2
    ensures PathLess(dir + name, dir2 + name2) <==> Less(dir, dir2) || (dir == dir2 && Less(name, name2))
  {
    FilePathOf(dir, name);
    FilePathOf(dir2, name2);
    LessIrreflexive(dir);
    hide FilePath;
    if dir == dir2 { SamePrefix(dir, name, name2); }
  }

  lemma {:induction false} SamePrefix(dir: string, name: string, name2: string)
    ensures Less(dir + name, dir + name2) <==> Less(name, name2)
  {
    if dir == "" {
      assert dir + name == name && dir + name2 == name2;
    } else {
      assert (dir + name)[1..] == dir[1..] + name && (dir + name2)[1..] == dir[1..] + name2;
      SamePrefix(dir[1..], name, name2);
    }
  }
}
