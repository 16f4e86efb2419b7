/** Trees of directories and files, as file lists are (filelist/DirectoryListingDirectory.h), and places
    in them.  A place is the list of positions on the way from the root; it stands for the pointer to a
    directory, and the place without its last position for the pointer to the parent. */
module DirectoryTree {

  import opened Names

  datatype File = File(name: string, size: int, hash: nat, date: nat)

  datatype Tree<A> = Tree(name: string, info: A, files: seq<File>, subs: seq<Tree<A>>)

  function NamesOf<A>(ds: seq<Tree<A>>): seq<string> {
    seq(|ds|, i requires 0 <= i < |ds| => ds[i].name)
  }

  /** Sibling directories have different names: the source keeps them in a map by name. */
  ghost predicate Distinct<A>(ds: seq<Tree<A>>) {
    forall i, j :: 0 <= i < j < |ds| ==> !Same(ds[i].name, ds[j].name)
  }

  predicate Reaches<A>(d: Tree<A>, p: seq<nat>) {
    p == [] || (p[0] < |d.subs| && Reaches(d.subs[p[0]], p[1..]))
  }

  function Node<A>(d: Tree<A>, p: seq<nat>): Tree<A>
    requires Reaches(d, p)
  {
    if p == [] then d else Node(d.subs[p[0]], p[1..])
  }

  function Put<A>(d: Tree<A>, p: seq<nat>, x: Tree<A>): Tree<A>
    requires Reaches(d, p)
  {
    if p == [] then x else d.(subs := d.subs[p[0] := Put(d.subs[p[0]], p[1..], x)])
  }

  lemma {:induction false} NodePut<A>(d: Tree<A>, p: seq<nat>, x: Tree<A>)
    requires Reaches(d, p)
    ensures Reaches(Put(d, p, x), p) && Node(Put(d, p, x), p) == x
    decreases p
  {
    if p != [] { NodePut(d.subs[p[0]], p[1..], x); }
  }

  lemma {:induction false} PutPut<A>(d: Tree<A>, p: seq<nat>, x: Tree<A>, y: Tree<A>)
    requires Reaches(d, p)
    ensures Reaches(Put(d, p, x), p) && Put(Put(d, p, x), p, y) == Put(d, p, y)
    decreases p
  {
    if p != [] {
      PutPut(d.subs[p[0]], p[1..], x, y);
      NodePut(d, p, x);
    }
  }

  lemma {:induction false} PutNode<A>(d: Tree<A>, p: seq<nat>)
    requires Reaches(d, p)
    ensures Put(d, p, Node(d, p)) == d
    decreases p
  {
    if p != [] { PutNode(d.subs[p[0]], p[1..]); }
  }

  /** A place below p is a place in the directory at p. */
  lemma {:induction false} Below<A>(d: Tree<A>, p: seq<nat>, k: nat, x: Tree<A>)
    requires Reaches(d, p) && k < |Node(d, p).subs|
    ensures Reaches(d, p + [k]) && Node(d, p + [k]) == Node(d, p).subs[k]
    ensures var n := Node(d, p);
      Put(d, p + [k], x) == Put(d, p, n.(subs := n.subs[k := x]))
    decreases p
  {
    var q := p + [k];
    if p == [] {
      assert q[1..] == [];
    } else {
      assert q[1..] == p[1..] + [k];
      Below(d.subs[p[0]], p[1..], k, x);
    }
  }

  lemma {:induction false} PutRoot<A>(d: Tree<A>, x: Tree<A>)
    ensures Reaches(d, []) && Node(d, []) == d && Put(d, [], x) == x
  {}
}
