/** The ADL traversal on all destinations at once: the state between two of its steps. */
module AdlSteps {

  import opened AdlTree
  import opened DirectoryTree

  /** The destinations with a cursor inside. */
  function OpenOf(dests: seq<Dest>): set<nat> {
    set i: nat | i < |dests| && dests[i].subdir.Some?
  }

  ghost predicate AllReady(dests: seq<Dest>) {
    forall i :: 0 <= i < |dests| ==> dests[i].Ready()
  }

  ghost predicate AllVisited(r: Rules, was: seq<Dest>, now: seq<Dest>, dir: Dir)
    requires AllReady(was)
  {
    |now| == |was| && forall i :: 0 <= i < |was| ==> now[i].Core() == Visited(r, i, was[i].Core(), dir, OpenOf(was))
  }

  ghost predicate Progress(r: Rules, was: seq<Dest>, now: seq<Dest>, ds: seq<Dir>, fs: seq<File>, path: string) {
    && AllReady(was) && |now| == |was|
    && forall i :: 0 <= i < |was| ==> now[i].Core() == Walk(r, i, was[i].Core(), ds, fs, path, OpenOf(was))
  }

  lemma {:induction false} Started(r: Rules, was: seq<Dest>, path: string)
    requires AllReady(was)
    ensures Progress(r, was, was, [], [], path)
  {
    hide Dest.Ready, Walk;
    forall i | 0 <= i < |was|
      ensures was[i].Core().Ready() && was[i].Core() == Walk(r, i, was[i].Core(), [], [], path, OpenOf(was))
    {
      ReadyCore(was[i]);
      WalkStart(r, i, was[i].Core(), path, OpenOf(was));
    }
  }

  lemma {:induction false} ReadyCore(dest: Dest)
    ensures dest.Ready() <==> dest.Core().Ready()
  {}

  lemma {:induction false} InProgress(r: Rules, was: seq<Dest>, now: seq<Dest>, ds: seq<Dir>, fs: seq<File>,
      path: string)
    requires Progress(r, was, now, ds, fs, path)
    ensures OpenOf(now) == OpenOf(was) && forall i :: 0 <= i < |now| ==> now[i].Valid()
  {
    hide Walk, Reaches;
    forall i | 0 <= i < |now| ensures now[i].Valid() && now[i].subdir == was[i].subdir {
      WalkValid(r, i, was[i].Core(), ds, fs, path, OpenOf(was));
      assert now[i].Core().Valid();
    }
  }

  lemma {:induction false} FileTaken(r: Rules, was: seq<Dest>, now: seq<Dest>, next: seq<Dest>,
                                     ds: seq<Dir>, fs: seq<File>, f: File, path: string)
    requires Progress(r, was, now, ds, fs, path) && |next| == |now|
    requires forall i :: 0 <= i < |now| ==> now[i].Valid() && next[i] == TakeFile(now[i], i in FileHits(r, f, path), f)
    ensures Progress(r, was, next, ds, fs + [f], path)
  {
    hide Walk, Reaches, FileHits, Put, Node;
    forall i | 0 <= i < |now| ensures next[i].Core() == Walk(r, i, was[i].Core(), ds, fs + [f], path, OpenOf(was)) {
      FileStep(r, i, was[i].Core(), ds, fs, f, path, OpenOf(was));
      WalkFlag(r, i, was[i].Core(), ds, fs, path, OpenOf(was));
    }
  }

  lemma {:induction false} WalkFlag(r: Rules, i: nat, dest: Dest, ds: seq<Dir>, fs: seq<File>, path: string,
      open: set<nat>)
    requires dest.Ready()
    ensures Walk(r, i, dest, ds, fs, path, open).fileAdded == dest.fileAdded
  {}

  lemma {:induction false} HitsInRange(r: Rules, item: Item, j: nat, taken: set<nat>, n: nat)
    requires j <= |r.searches| && forall k :: 0 <= k < |r.searches| ==> r.searches[k].ddIndex < n
    ensures forall i :: i in Chosen(r, item, j, taken) ==> i < n
    decreases |r.searches| - j
  {
    if j < |r.searches| {
      HitsInRange(r, item, j + 1, taken, n);
      HitsInRange(r, item, j + 1, taken + {r.searches[j].ddIndex}, n);
    }
  }

  lemma {:induction false} SubEntered(r: Rules, was: seq<Dest>, now: seq<Dest>, entered: seq<Dest>,
                                      ds: seq<Dir>, c: Dir, path: string)
    requires Progress(r, was, now, ds, [], path) && |entered| == |now| && Distinct(ds + [c])
    requires forall k :: 0 <= k < |r.searches| ==> r.searches[k].ddIndex < |now|
    requires var below := OpenBelow(r, c, OpenOf(now));
      forall i :: 0 <= i < |now| ==> now[i].Valid() && entered[i] == Enter(now[i], i in below, c.name, c.info)
    ensures AllReady(entered) && OpenOf(entered) == OpenBelow(r, c, OpenOf(now))
  {
    var below := OpenBelow(r, c, OpenOf(now));
    HitsInRange(r, ADirectory(c.name), 0, OpenOf(now), |now|);
    InProgress(r, was, now, ds, [], path);
    hide Walk, Reaches, Enter, Visited, Distinct, Chosen;
    forall i | 0 <= i < |now| ensures entered[i].Ready() && (entered[i].subdir.Some? <==> i in below) {
      ChildStep(r, i, was[i].Core(), ds, c, path, OpenOf(was));
      EnterCore(now[i], i in below, c.name, c.info);
    }
  }

  lemma {:induction false} EnterCore(dest: Dest, hit: bool, name: string, path: string)
    requires dest.Valid()
    ensures dest.Core().Valid() && Enter(dest, hit, name, path).Core() == Enter(dest.Core(), hit, name, path)
    ensures Enter(dest, hit, name, path).Ready() <==> Enter(dest, hit, name, path).Core().Ready()
    ensures Enter(dest, hit, name, path).subdir == Enter(dest, hit, name, path).Core().subdir
  {}

  lemma {:induction false} SubVisited(r: Rules, was: seq<Dest>, now: seq<Dest>, entered: seq<Dest>, next: seq<Dest>,
                                      ds: seq<Dir>, c: Dir, path: string)
    requires Progress(r, was, now, ds, [], path) && |entered| == |now| && Distinct(ds + [c])
    requires var below := OpenBelow(r, c, OpenOf(now));
      forall i :: 0 <= i < |now| ==> now[i].Valid() && entered[i] == Enter(now[i], i in below, c.name, c.info)
    requires AllReady(entered) && OpenOf(entered) == OpenBelow(r, c, OpenOf(now)) && AllVisited(r, entered, next, c)
    ensures Progress(r, was, next, ds + [c], [], path)
  {
    InProgress(r, was, now, ds, [], path);
    hide Walk, Reaches, Enter, Visited, Distinct, OpenBelow, OpenOf;
    forall i | 0 <= i < |now| ensures next[i].Core() == Walk(r, i, was[i].Core(), ds + [c], [], path, OpenOf(was)) {
      ChildStep(r, i, was[i].Core(), ds, c, path, OpenOf(was));
      EnterCore(now[i], i in OpenBelow(r, c, OpenOf(now)), c.name, c.info);
    }
  }

  lemma {:induction false} Finished(r: Rules, was: seq<Dest>, now: seq<Dest>, next: seq<Dest>, dir: Dir)
    requires Progress(r, was, now, dir.subs, dir.files, dir.info) && |next| == |now|
    requires forall i :: 0 <= i < |now| ==> now[i].Valid() && next[i] == StepUp(now[i])
    ensures AllReady(was) && AllVisited(r, was, next, dir)
  {
    hide Walk, Reaches;
    forall i | 0 <= i < |now| ensures next[i].Core() == Visited(r, i, was[i].Core(), dir, OpenOf(was)) {
      WalkValid(r, i, was[i].Core(), dir.subs, dir.files, dir.info, OpenOf(was));
    }
  }
}
