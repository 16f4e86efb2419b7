/** What ends up in the destinations of an ADL search pass, told without cursors or search order. */
module AdlCopies {

  import opened AdlSteps
  import opened AdlTree
  import opened DirectoryTree
  import opened Names

  // ---------------------------------------------------------------- which destinations an item hits

  /** The search is active, made for such items, its pattern fits and the size is within its limits,
      where a negative limit is none and a negative size is within any. */
  ghost predicate Takes(s: Search, item: Item) {
    && s.isActive
    && match item
       case ADirectory(name) => s.source == OnlyDirectory && s.pattern(name)
       case AFile(name, nmdcPath, size) =>
         && ((s.source == OnlyFile && s.pattern(name)) || (s.source == FullPath && s.pattern(nmdcPath)))
         && (size < 0 ||
             ((s.minSize < 0 || s.minSize * s.sizeBase <= size) && (s.maxSize < 0 || size <= s.maxSize * s.sizeBase)))
  }

  lemma {:induction false} TakesExactly(s: Search, item: Item)
    ensures s.Matches(item) <==> Takes(s, item)
  {}

  /** Search k takes the item and its destination is not taken. */
  ghost predicate Candidate(r: Rules, item: Item, taken: set<nat>, k: nat)
    requires k < |r.searches|
  {
    Takes(r.searches[k], item) && r.searches[k].ddIndex !in taken
  }

  /** Some search for destination i takes the item. */
  ghost predicate Wanted(r: Rules, item: Item, i: nat) {
    item.name != "" && exists k :: 0 <= k < |r.searches| && r.searches[k].ddIndex == i && Takes(r.searches[k], item)
  }

  lemma {:induction false} ChosenAll(r: Rules, item: Item, j: nat, taken: set<nat>, i: nat)
    requires j <= |r.searches| && !r.breakOnFirst
    ensures i in Chosen(r, item, j, taken) <==>
      exists k :: j <= k < |r.searches| && r.searches[k].ddIndex == i && Candidate(r, item, taken, k)
    decreases |r.searches| - j
  {
    if j < |r.searches| {
      var s := r.searches[j];
      TakesExactly(s, item);
      hide Takes;
      if s.ddIndex in taken || !s.Matches(item) {
        ChosenAll(r, item, j + 1, taken, i);
      } else {
        assert Candidate(r, item, taken, j);
        ChosenAll(r, item, j + 1, taken + {s.ddIndex}, i);
        forall k | j + 1 <= k < |r.searches| && i != s.ddIndex && r.searches[k].ddIndex == i
          ensures Candidate(r, item, taken, k) <==> Candidate(r, item, taken + {s.ddIndex}, k)
        {}
      }
    }
  }

  lemma {:induction false} ChosenFirst(r: Rules, item: Item, j: nat, taken: set<nat>, k: nat)
    requires j <= k < |r.searches| && r.breakOnFirst
    requires Candidate(r, item, taken, k) && forall l :: j <= l < k ==> !Candidate(r, item, taken, l)
    ensures Chosen(r, item, j, taken) == {r.searches[k].ddIndex}
    decreases k - j
  {
    TakesExactly(r.searches[j], item);
    hide Takes;
    if j < k {
      assert !Candidate(r, item, taken, j);
      ChosenFirst(r, item, j + 1, taken, k);
    }
  }

  /** Without break-on-first an item hits every destination that some search wants it for. */
  lemma {:induction false} EveryWantedIsHit(r: Rules, item: Item, open: set<nat>, i: nat)
    requires !r.breakOnFirst && i !in open
    ensures i in Hits(r, item, open) <==> Wanted(r, item, i)
  {
    ChosenAll(r, item, 0, open, i);
    forall k | 0 <= k < |r.searches| && r.searches[k].ddIndex == i
      ensures Takes(r.searches[k], item) <==> Candidate(r, item, open, k)
    {}
  }

  lemma {:induction false} ChosenNone(r: Rules, item: Item, j: nat, taken: set<nat>)
    requires j <= |r.searches| && forall l :: j <= l < |r.searches| ==> !Candidate(r, item, taken, l)
    ensures Chosen(r, item, j, taken) == {}
    decreases |r.searches| - j
  {
    if j < |r.searches| {
      TakesExactly(r.searches[j], item);
      hide Takes;
      assert !Candidate(r, item, taken, j);
      ChosenNone(r, item, j + 1, taken);
    }
  }

  /** Search k is the first that takes the item and whose destination is not taken. */
  ghost predicate FirstCandidate(r: Rules, item: Item, taken: set<nat>, k: nat)
    requires k < |r.searches|
  {
    Candidate(r, item, taken, k) && forall l :: 0 <= l < k ==> !Candidate(r, item, taken, l)
  }

  lemma {:induction false} OneFirst(r: Rules, item: Item, taken: set<nat>, k: nat, l: nat)
    requires k < |r.searches| && l < |r.searches|
    requires FirstCandidate(r, item, taken, k) && FirstCandidate(r, item, taken, l)
    ensures k == l
  {
    hide Candidate;
  }

  lemma {:induction false} SomeFirst(r: Rules, item: Item, taken: set<nat>, n: nat) returns (k: nat)
    requires n < |r.searches| && Candidate(r, item, taken, n)
    ensures k <= n && FirstCandidate(r, item, taken, k)
  {
    hide Candidate;
    if l: nat :| l < n && Candidate(r, item, taken, l) { k := SomeFirst(r, item, taken, l); } else { k := n; }
  }

  /** With it an item hits only the destination of the first matching search whose destination is
      not already open. */
  lemma {:induction false} FirstIsHit(r: Rules, item: Item, open: set<nat>, i: nat)
    requires r.breakOnFirst
    ensures i in Hits(r, item, open) <==>
      item.name != "" &&
      exists k :: 0 <= k < |r.searches| && r.searches[k].ddIndex == i && FirstCandidate(r, item, open, k)
  {
    hide Candidate, Chosen;
    if n: nat :| n < |r.searches| && Candidate(r, item, open, n) {
      var k := SomeFirst(r, item, open, n);
      ChosenFirst(r, item, 0, open, k);
      forall l | 0 <= l < |r.searches| && FirstCandidate(r, item, open, l) ensures l == k
      {
        OneFirst(r, item, open, k, l);
      }
    } else {
      ChosenNone(r, item, 0, open);
    }
  }

  lemma {:induction false} AtMostOneHit(r: Rules, item: Item, open: set<nat>, i: nat, j: nat)
    requires r.breakOnFirst && i in Hits(r, item, open) && j in Hits(r, item, open)
    ensures i == j
  {
    FirstIsHit(r, item, open, i);
    FirstIsHit(r, item, open, j);
    hide Hits, FirstCandidate;
    var k :| 0 <= k < |r.searches| && r.searches[k].ddIndex == i && FirstCandidate(r, item, open, k);
    var l :| 0 <= l < |r.searches| && r.searches[l].ddIndex == j && FirstCandidate(r, item, open, l);
    OneFirst(r, item, open, k, l);
  }

  // ---------------------------------------------------------------- where copies are taken

  /** Destination i takes a copy of the directory at p below ds: it opens there, and nowhere on the
      way, when those in `open` are open above. */
  ghost predicate Opens(r: Rules, i: nat, ds: seq<Dir>, p: seq<nat>, open: set<nat>)
    decreases |p|
  {
    && p != [] && p[0] < |ds|
    && var below := OpenBelow(r, ds[p[0]], open);
    if |p| == 1 then i in below else i !in below && Opens(r, i, ds[p[0]].subs, p[1..], below)
  }

  predicate In(ds: seq<Dir>, p: seq<nat>) {
    p != [] && p[0] < |ds| && Reaches(ds[p[0]], p[1..])
  }

  function At(ds: seq<Dir>, p: seq<nat>): Dir
    requires In(ds, p)
  {
    Node(ds[p[0]], p[1..])
  }

  /** p comes before q in the traversal, and neither is inside the other. */
  predicate Earlier(p: seq<nat>, q: seq<nat>)
    decreases |p|
  {
    p != [] && q != [] && (p[0] < q[0] || (p[0] == q[0] && Earlier(p[1..], q[1..])))
  }

  function Under(k: nat, ps: seq<seq<nat>>): seq<seq<nat>> {
    seq(|ps|, a requires 0 <= a < |ps| => [k] + ps[a])
  }

  /** The places where destination i takes a copy, in the order of the traversal. */
  function Places(r: Rules, i: nat, ds: seq<Dir>, open: set<nat>): seq<seq<nat>> {
    if ds == [] then []
    else
      var k, d := |ds| - 1, ds[|ds| - 1];
      var below := OpenBelow(r, d, open);
      Places(r, i, ds[..k], open) + if i in below then [[k]] else Under(k, Places(r, i, d.subs, below))
  }

  /** A place is one of those before the last directory, that directory, or below it. */
  lemma {:induction false} PlaceCases(r: Rules, i: nat, ds: seq<Dir>, open: set<nat>, a: nat)
    requires a < |Places(r, i, ds, open)|
    ensures var k, d, p := |ds| - 1, ds[|ds| - 1], Places(r, i, ds, open)[a];
      var m, below := |Places(r, i, ds[..k], open)|, OpenBelow(r, d, open);
      if a < m then p == Places(r, i, ds[..k], open)[a]
      else if i in below then a == m && p == [k]
      else a - m < |Places(r, i, d.subs, below)| && |p| > 0 && p[0] == k && p[1..] == Places(r, i, d.subs, below)[a - m]
  {
    hide OpenBelow;
  }

  lemma {:induction false} PlacesOpen(r: Rules, i: nat, ds: seq<Dir>, open: set<nat>, a: nat)
    requires a < |Places(r, i, ds, open)|
    ensures Opens(r, i, ds, Places(r, i, ds, open)[a], open)
  {
    var k, d := |ds| - 1, ds[|ds| - 1];
    var m, below := |Places(r, i, ds[..k], open)|, OpenBelow(r, d, open);
    PlaceCases(r, i, ds, open, a);
    hide OpenBelow, Places;
    if a < m {
      PlacesOpen(r, i, ds[..k], open, a);
      OpensPrefix(r, i, ds, k, Places(r, i, ds, open)[a], open);
    } else if i !in below {
      PlacesOpen(r, i, d.subs, below, a - m);
      OpensSomewhere(r, i, d.subs, Places(r, i, d.subs, below)[a - m], below);
    }
  }

  lemma {:induction false} OpensSomewhere(r: Rules, i: nat, ds: seq<Dir>, p: seq<nat>, open: set<nat>)
    ensures Opens(r, i, ds, p, open) ==> p != [] && p[0] < |ds|
  {}

  lemma {:induction false} OpensPrefix(r: Rules, i: nat, ds: seq<Dir>, k: nat, p: seq<nat>, open: set<nat>)
    requires k <= |ds| && (p != [] ==> p[0] < k)
    ensures Opens(r, i, ds[..k], p, open) <==> Opens(r, i, ds, p, open)
  {
    hide OpenBelow;
  }

  lemma {:induction false} OpensAtPlace(r: Rules, i: nat, ds: seq<Dir>, p: seq<nat>, open: set<nat>)
    requires Opens(r, i, ds, p, open)
    ensures p in Places(r, i, ds, open)
  {
    var k, d := |ds| - 1, ds[|ds| - 1];
    var below := OpenBelow(r, d, open);
    hide OpenBelow;
    if p[0] < k {
      OpensPrefix(r, i, ds, k, p, open);
      OpensAtPlace(r, i, ds[..k], p, open);
    } else if |p| == 1 {
      assert p == [k];
    } else {
      OpensAtPlace(r, i, d.subs, p[1..], below);
      var a :| 0 <= a < |Places(r, i, d.subs, below)| && Places(r, i, d.subs, below)[a] == p[1..];
      assert Under(k, Places(r, i, d.subs, below))[a] == p;
    }
  }

  ghost predicate InOrder(ps: seq<seq<nat>>) {
    forall a, b :: 0 <= a < b < |ps| ==> Earlier(ps[a], ps[b])
  }

  /** All places are in the first k directories. */
  ghost predicate Before(ps: seq<seq<nat>>, k: nat) {
    forall a :: 0 <= a < |ps| ==> ps[a] != [] && ps[a][0] < k
  }

  lemma {:induction false} PlacesInside(r: Rules, i: nat, ds: seq<Dir>, open: set<nat>)
    ensures Before(Places(r, i, ds, open), |ds|)
  {
    hide Places, Opens;
    forall a | 0 <= a < |Places(r, i, ds, open)|
      ensures var p := Places(r, i, ds, open)[a]; p != [] && p[0] < |ds|
    {
      PlacesOpen(r, i, ds, open, a);
      OpensSomewhere(r, i, ds, Places(r, i, ds, open)[a], open);
    }
  }

  lemma {:induction false} UnderInOrder(k: nat, ps: seq<seq<nat>>)
    requires InOrder(ps)
    ensures InOrder(Under(k, ps))
  {
    var us := Under(k, ps);
    forall a, b | 0 <= a < b < |us| ensures Earlier(us[a], us[b]) {
      assert us[a][1..] == ps[a] && us[b][1..] == ps[b];
    }
  }

  lemma {:induction false} JoinInOrder(ps: seq<seq<nat>>, qs: seq<seq<nat>>, k: nat)
    requires InOrder(ps) && InOrder(qs) && Before(ps, k)
    requires forall b :: 0 <= b < |qs| ==> qs[b] != [] && qs[b][0] == k
    ensures InOrder(ps + qs)
  {
    forall a, b | 0 <= a < |ps| && 0 <= b < |qs| ensures Earlier(ps[a], qs[b]) {}
    hide Earlier;
  }

  lemma {:induction false} PlacesInOrder(r: Rules, i: nat, ds: seq<Dir>, open: set<nat>)
    ensures InOrder(Places(r, i, ds, open))
    decreases ds
  {
    if ds != [] {
      var k, d := |ds| - 1, ds[|ds| - 1];
      var below := OpenBelow(r, d, open);
      PlacesInside(r, i, ds[..k], open);
      PlacesInOrder(r, i, ds[..k], open);
      PlacesInOrder(r, i, d.subs, below);
      UnderInOrder(k, Places(r, i, d.subs, below));
      JoinInOrder(Places(r, i, ds[..k], open), if i in below then [[k]] else Under(k, Places(r, i, d.subs, below)), k);
      hide InOrder, Before, OpenBelow;
    }
  }

  /** The copied directories are those at these places: as many, and one by one. */
  lemma {:induction false} CopiesCounted(r: Rules, i: nat, ds: seq<Dir>, open: set<nat>)
    requires i !in open
    ensures |TopOf(r, i, ds, open)| == |Places(r, i, ds, open)|
  {
    if ds != [] {
      var d := ds[|ds| - 1];
      var below := OpenBelow(r, d, open);
      CopiesCounted(r, i, ds[..|ds| - 1], open);
      hide OpenBelow;
      if i !in below { CopiesCounted(r, i, d.subs, below); }
    }
  }

  /** A copy is one of those before the last directory, that directory, or one of those below it. */
  lemma {:induction false} CopyCases(r: Rules, i: nat, ds: seq<Dir>, open: set<nat>, a: nat)
    requires i !in open && a < |TopOf(r, i, ds, open)|
    ensures var d, m := ds[|ds| - 1], |TopOf(r, i, ds[..|ds| - 1], open)|;
      var below := OpenBelow(r, d, open);
      if a < m then TopOf(r, i, ds, open)[a] == TopOf(r, i, ds[..|ds| - 1], open)[a]
      else if i in below then TopOf(r, i, ds, open)[a] == d
      else a - m < |TopOf(r, i, d.subs, below)| && TopOf(r, i, ds, open)[a] == TopOf(r, i, d.subs, below)[a - m]
  {
    hide OpenBelow;
  }

  lemma {:induction false} AtStep(ds: seq<Dir>, p: seq<nat>)
    requires ds != [] && p != []
    ensures p[0] < |ds| - 1 && In(ds[..|ds| - 1], p) ==> In(ds, p) && At(ds, p) == At(ds[..|ds| - 1], p)
    ensures p == [|ds| - 1] ==> In(ds, p) && At(ds, p) == ds[|ds| - 1]
    ensures p[0] == |ds| - 1 && In(ds[|ds| - 1].subs, p[1..]) ==>
      In(ds, p) && At(ds, p) == At(ds[|ds| - 1].subs, p[1..])
  {}

  lemma {:induction false} CopiesAtPlaces(r: Rules, i: nat, ds: seq<Dir>, open: set<nat>, a: nat)
    requires i !in open && a < |Places(r, i, ds, open)|
    ensures a < |TopOf(r, i, ds, open)|
    ensures In(ds, Places(r, i, ds, open)[a]) && At(ds, Places(r, i, ds, open)[a]) == TopOf(r, i, ds, open)[a]
  {
    CopiesCounted(r, i, ds, open);
    CopiesCounted(r, i, ds[..|ds| - 1], open);
    PlaceCases(r, i, ds, open, a);
    CopyCases(r, i, ds, open, a);
    var d, p, m := ds[|ds| - 1], Places(r, i, ds, open)[a], |Places(r, i, ds[..|ds| - 1], open)|;
    var below := OpenBelow(r, d, open);
    hide Places, TopOf, At, OpenBelow;
    if a < m { CopiesAtPlaces(r, i, ds[..|ds| - 1], open, a); }
    AtStep(ds, p);
    if a >= m && i !in below { CopiesAtPlaces(r, i, d.subs, below, a - m); }
    hide In;
  }

  /** Destination i gets one copy of every directory at which it opens, in the order of the list. */
  lemma {:induction false} CopiesAreOpened(r: Rules, i: nat, root: Dir)
    ensures var places, copies := Places(r, i, root.subs, {}), TopOf(r, i, root.subs, {});
      && |copies| == |places|
      && (forall p :: p in places <==> Opens(r, i, root.subs, p, {}))
      && InOrder(places)
      && (forall a :: 0 <= a < |places| ==> In(root.subs, places[a]) && At(root.subs, places[a]) == copies[a])
  {
    var places := Places(r, i, root.subs, {});
    hide Places, TopOf, Opens;
    forall p ensures p in places <==> Opens(r, i, root.subs, p, {}) {
      if p in places {
        var a :| 0 <= a < |places| && places[a] == p;
        PlacesOpen(r, i, root.subs, {}, a);
      } else if Opens(r, i, root.subs, p, {}) {
        OpensAtPlace(r, i, root.subs, p, {});
      }
    }
    PlacesInOrder(r, i, root.subs, {});
    CopiesCounted(r, i, root.subs, {});
    forall a | 0 <= a < |places|
      ensures In(root.subs, places[a]) && At(root.subs, places[a]) == TopOf(r, i, root.subs, {})[a]
    {
      CopiesAtPlaces(r, i, root.subs, {}, a);
    }
  }

  // ---------------------------------------------------------------- which directories those are

  /** The place p below ds is a directory wanted by destination i, and none on the way to it is. */
  ghost predicate Topmost(r: Rules, i: nat, ds: seq<Dir>, p: seq<nat>)
    decreases |p|
  {
    && p != [] && p[0] < |ds|
    && var d := ds[p[0]];
    if |p| == 1 then Wanted(r, ADirectory(d.name), i)
    else !Wanted(r, ADirectory(d.name), i) && Topmost(r, i, d.subs, p[1..])
  }

  lemma {:induction false} TopmostCopied(r: Rules, i: nat, ds: seq<Dir>, p: seq<nat>, open: set<nat>)
    requires !r.breakOnFirst && i !in open
    ensures Opens(r, i, ds, p, open) <==> Topmost(r, i, ds, p)
    decreases |p|
  {
    if p != [] && p[0] < |ds| {
      var d := ds[p[0]];
      EveryWantedIsHit(r, ADirectory(d.name), open, i);
      hide Wanted, Hits;
      if i !in OpenBelow(r, d, open) { TopmostCopied(r, i, d.subs, p[1..], OpenBelow(r, d, open)); }
    }
  }

  /** Without break-on-first, what destination i copies does not depend on the other searches: one
      copy of every directory it wants that is not inside another one, in the order of the list. */
  lemma {:induction false} CopiesAreTopmost(r: Rules, i: nat, root: Dir)
    requires !r.breakOnFirst
    ensures var places, copies := Places(r, i, root.subs, {}), TopOf(r, i, root.subs, {});
      && |copies| == |places|
      && (forall p :: p in places <==> Topmost(r, i, root.subs, p))
      && InOrder(places)
      && (forall a :: 0 <= a < |places| ==> In(root.subs, places[a]) && At(root.subs, places[a]) == copies[a])
  {
    CopiesAreOpened(r, i, root);
    hide Places, TopOf, Opens, Topmost, Earlier, In, At;
    forall p ensures Opens(r, i, root.subs, p, {}) <==> Topmost(r, i, root.subs, p) {
      TopmostCopied(r, i, root.subs, p, {});
    }
  }

  /** The destinations open on the way to p. */
  function OpenOn(r: Rules, ds: seq<Dir>, p: seq<nat>, open: set<nat>): set<nat>
    requires In(ds, p)
    decreases |p|
  {
    if |p| == 1 then open else OpenOn(r, ds[p[0]].subs, p[1..], OpenBelow(r, ds[p[0]], open))
  }

  lemma {:induction false} OpensExactly(r: Rules, i: nat, ds: seq<Dir>, p: seq<nat>, open: set<nat>)
    requires In(ds, p) && i !in open
    ensures var way := OpenOn(r, ds, p, open);
      Opens(r, i, ds, p, open) <==> i !in way && i in Hits(r, ADirectory(At(ds, p).name), way)
    decreases |p|
  {
    var below := OpenBelow(r, ds[p[0]], open);
    if |p| > 1 {
      hide Hits;
      if i in below { OpenStays(r, i, ds[p[0]].subs, p[1..], below); }
      else { OpensExactly(r, i, ds[p[0]].subs, p[1..], below); }
    }
    hide Hits;
  }

  lemma {:induction false} OpenStays(r: Rules, i: nat, ds: seq<Dir>, p: seq<nat>, open: set<nat>)
    requires In(ds, p) && i in open
    ensures i in OpenOn(r, ds, p, open)
    decreases |p|
  {
    hide Hits;
    if |p| > 1 { OpenStays(r, i, ds[p[0]].subs, p[1..], OpenBelow(r, ds[p[0]], open)); }
  }

  /** Destination i takes a copy of a directory that the one at p is in. */
  ghost predicate TookAbove(r: Rules, i: nat, ds: seq<Dir>, p: seq<nat>, open: set<nat>) {
    exists n :: 1 <= n < |p| && Opens(r, i, ds, p[..n], open)
  }

  /** Open on the way are the destinations that take a copy there. */
  lemma {:induction false} OpenOnExactly(r: Rules, i: nat, ds: seq<Dir>, p: seq<nat>, open: set<nat>)
    requires In(ds, p) && i !in open
    ensures i in OpenOn(r, ds, p, open) <==> TookAbove(r, i, ds, p, open)
    decreases |p|
  {
    var d := ds[p[0]];
    var below := OpenBelow(r, d, open);
    hide OpenBelow;
    if |p| > 1 {
      if i in below {
        OpenStays(r, i, d.subs, p[1..], below);
        assert Opens(r, i, ds, p[..1], open);
      } else {
        OpenOnExactly(r, i, d.subs, p[1..], below);
        assert forall n :: 1 <= n < |p[1..]| ==> p[..n + 1][1..] == p[1..][..n];
        TookBelow(r, i, ds, p, open);
      }
    }
  }

  lemma {:induction false} TookBelow(r: Rules, i: nat, ds: seq<Dir>, p: seq<nat>, open: set<nat>)
    requires In(ds, p) && |p| > 1 && i !in OpenBelow(r, ds[p[0]], open)
    ensures TookAbove(r, i, ds, p, open) <==> TookAbove(r, i, ds[p[0]].subs, p[1..], OpenBelow(r, ds[p[0]], open))
  {
    var subs, below := ds[p[0]].subs, OpenBelow(r, ds[p[0]], open);
    hide OpenBelow;
    if n :| 1 <= n < |p| && Opens(r, i, ds, p[..n], open) {
      assert p[..n][1..] == p[1..][..n - 1];
    }
    if n :| 1 <= n < |p[1..]| && Opens(r, i, subs, p[1..][..n], below) {
      assert p[..n + 1][1..] == p[1..][..n];
      assert Opens(r, i, ds, p[..n + 1], open);
    }
  }

  /** With break-on-first a destination copies a directory exactly if it belongs to the first of the
      searches that match the directory and whose destinations do not copy one it is in. */
  lemma {:induction false} FirstFreeCopied(r: Rules, i: nat, ds: seq<Dir>, p: seq<nat>)
    requires r.breakOnFirst && In(ds, p)
    ensures Opens(r, i, ds, p, {}) <==>
      var item := ADirectory(At(ds, p).name);
      item.name != "" && exists k :: 0 <= k < |r.searches| && r.searches[k].ddIndex == i && FreeFirst(r, ds, p, item, k)
  {
    var item, way := ADirectory(At(ds, p).name), OpenOn(r, ds, p, {});
    OpensExactly(r, i, ds, p, {});
    forall k | 0 <= k < |r.searches| ensures Candidate(r, item, way, k) <==> Free(r, ds, p, item, k) {
      OpenOnExactly(r, r.searches[k].ddIndex, ds, p, {});
    }
    hide Opens, TookAbove, OpenOn, Free, Candidate, At, In;
    FirstIsHit(r, item, way, i);
    assert forall k :: 0 <= k < |r.searches| ==> (FirstCandidate(r, item, way, k) <==> FreeFirst(r, ds, p, item, k));
  }

  /** Search k takes the directory at p and its destination copies none that it is in. */
  ghost predicate Free(r: Rules, ds: seq<Dir>, p: seq<nat>, item: Item, k: nat)
    requires k < |r.searches|
  {
    Takes(r.searches[k], item) && !TookAbove(r, r.searches[k].ddIndex, ds, p, {})
  }

  ghost predicate FreeFirst(r: Rules, ds: seq<Dir>, p: seq<nat>, item: Item, k: nat)
    requires k < |r.searches|
  {
    Free(r, ds, p, item, k) && forall l :: 0 <= l < k ==> !Free(r, ds, p, item, l)
  }

  /** With it no directory is copied to two destinations. */
  lemma {:induction false} CopiedOnce(r: Rules, i: nat, j: nat, ds: seq<Dir>, p: seq<nat>)
    requires r.breakOnFirst && Opens(r, i, ds, p, {}) && Opens(r, j, ds, p, {})
    ensures i == j
  {
    OpensInside(r, i, ds, p, {});
    OpensExactly(r, i, ds, p, {});
    OpensExactly(r, j, ds, p, {});
    AtMostOneHit(r, ADirectory(At(ds, p).name), OpenOn(r, ds, p, {}), i, j);
  }

  lemma {:induction false} OpensInside(r: Rules, i: nat, ds: seq<Dir>, p: seq<nat>, open: set<nat>)
    requires Opens(r, i, ds, p, open)
    ensures In(ds, p)
    decreases |p|
  {
    if |p| > 1 { OpensInside(r, i, ds[p[0]].subs, p[1..], OpenBelow(r, ds[p[0]], open)); }
  }

  // ---------------------------------------------------------------- faithful copies

  /** The name, or the name with a number in parentheses. */
  ghost predicate NameFor(name: string, given: string) {
    given == name || exists n :: 1 <= n && given == Numbered(name, n)
  }

  /** Each added directory is complete and in its turn; its own name alone may get a number, and the
      names differ. */
  lemma {:induction false} CopiesAreFaithful(news: seq<Dir>)
    ensures var dirs := AddAll([], news);
      && |dirs| == |news| && Distinct(dirs)
      && forall a :: 0 <= a < |news| ==>
        dirs[a] == news[a].(name := dirs[a].name) && NameFor(news[a].name, dirs[a].name)
  {
    if news != [] {
      var k, dirs := |news| - 1, AddAll([], news[..|news| - 1]);
      CopiesAreFaithful(news[..k]);
      hide AddAll, Same, Numbered, FirstFree;
      var name := UniqueName(NamesOf(dirs), news[k].name);
      forall a | 0 <= a < k ensures !Same(dirs[a].name, name) {
        assert NamesOf(dirs)[a] == dirs[a].name;
      }
    }
  }

  // ---------------------------------------------------------------- matched files

  datatype Visit = Visit(file: File, path: string)

  function Visits(files: seq<File>, path: string): seq<Visit> {
    seq(|files|, k requires 0 <= k < |files| => Visit(files[k], path))
  }

  /** All files of a directory in the order of the traversal. */
  function AllFiles(d: Dir): seq<Visit> {
    AllFilesOf(d.subs) + Visits(d.files, d.info)
  }

  function AllFilesOf(ds: seq<Dir>): seq<Visit> {
    if ds == [] then [] else AllFilesOf(ds[..|ds| - 1]) + AllFiles(ds[|ds| - 1])
  }

  /** The files of the visits that hit destination i. */
  function HitBy(r: Rules, i: nat, vs: seq<Visit>): seq<File> {
    if vs == [] then []
    else
      var v := vs[|vs| - 1];
      HitBy(r, i, vs[..|vs| - 1]) + if i in FileHits(r, v.file, v.path) then [v.file] else []
  }

  lemma {:induction false} HitByConcat(r: Rules, i: nat, vs: seq<Visit>, ws: seq<Visit>)
    ensures HitBy(r, i, vs + ws) == HitBy(r, i, vs) + HitBy(r, i, ws)
    decreases |ws|
  {
    hide FileHits;
    if ws == [] {
      assert vs + ws == vs;
    } else {
      assert (vs + ws)[..|vs + ws| - 1] == vs + ws[..|ws| - 1];
      HitByConcat(r, i, vs, ws[..|ws| - 1]);
    }
  }

  lemma {:induction false} HereHit(r: Rules, i: nat, files: seq<File>, path: string)
    ensures FilesHere(r, i, files, path) == HitBy(r, i, Visits(files, path))
  {
    hide FileHits;
    if files != [] {
      HereHit(r, i, files[..|files| - 1], path);
      assert Visits(files, path)[..|files| - 1] == Visits(files[..|files| - 1], path);
    }
  }

  /** A destination gets, of all files of the list and in the order of the traversal, those that hit
      it, whether or not they are also part of copied directories. */
  lemma {:induction false} FilesAreHits(r: Rules, i: nat, d: Dir)
    ensures FilesOf(r, i, d) == HitBy(r, i, AllFiles(d))
    decreases d, 1
  {
    AllFilesAreHits(r, i, d.subs);
    HereHit(r, i, d.files, d.info);
    HitByConcat(r, i, AllFilesOf(d.subs), Visits(d.files, d.info));
  }

  lemma {:induction false} AllFilesAreHits(r: Rules, i: nat, ds: seq<Dir>)
    ensures FilesOfAll(r, i, ds) == HitBy(r, i, AllFilesOf(ds))
    decreases ds, 0
  {
    if ds != [] {
      var some, d := ds[..|ds| - 1], ds[|ds| - 1];
      AllFilesAreHits(r, i, some);
      FilesAreHits(r, i, d);
      HitByConcat(r, i, AllFilesOf(some), AllFiles(d));
    }
  }
}
