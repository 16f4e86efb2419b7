/** The ids of hashers (hash/HashManager.cpp, createHasher and removeHasher): when they repeat, and what
    is lost then. */
module HasherIds {
  import opened HasherQueue
  import opened HasherWorker
  import opened HashScheduling

  // ---------------------------------------------------------------- hasher ids

  ghost predicate Increasing(ids: seq<nat>) {
    forall i, j :: 0 <= i < j < |ids| ==> ids[i] < ids[j]
  }

  /** No id below the length is missing, in order. */
  ghost predicate GapFree(ids: seq<nat>) {
    forall i :: 0 <= i < |ids| ==> ids[i] == i
  }

  lemma {:induction false} FreeIdFirstGap(ids: seq<nat>, id: nat)
    requires id <= |ids| && forall i :: 0 <= i < id ==> ids[i] == i
    ensures var r := FreeId(ids, id);
      id <= r <= |ids| && (forall i :: 0 <= i < r ==> ids[i] == i) && (r < |ids| ==> ids[r] != r)
    decreases |ids| - id
  {
    if id < |ids| && ids[id] == id { FreeIdFirstGap(ids, id + 1); }
  }

  /** In a list ordered by id the chosen id is new.  The list stays ordered exactly if it had no
      gap, because the new hasher always goes to the end. */
  lemma {:induction false} FreeIdInOrderedList(ids: seq<nat>)
    requires Increasing(ids)
    ensures FreeId(ids, 0) !in ids
    ensures Increasing(ids + [FreeId(ids, 0)]) <==> GapFree(ids)
  {
    FreeIdFirstGap(ids, 0);
    var r := FreeId(ids, 0);
    forall i | 0 <= i < |ids| ensures ids[i] != r && (r < |ids| ==> ids[r] > r) {
      AtLeastIndex(ids, i);
      if r < |ids| { AtLeastIndex(ids, r); }
      if i > r { assert ids[r] < ids[i]; }
    }
    var longer := ids + [r];
    if r < |ids| {
      assert longer[r] > longer[|ids|];
      assert !GapFree(ids);
    } else {
      forall i, j | 0 <= i < j < |longer| ensures longer[i] < longer[j] {}
    }
  }

  lemma {:induction false} AtLeastIndex(ids: seq<nat>, i: nat)
    requires Increasing(ids) && i < |ids|
    ensures ids[i] >= i
  {
    if i > 0 { AtLeastIndex(ids, i - 1); }
  }

  /** The chosen id is new exactly if no id stands behind its own place while all places before that
      place are in order and the place itself is not. */
  lemma {:induction false} FreeIdNewExactly(ids: seq<nat>)
    ensures FreeId(ids, 0) !in ids <==>
      forall j :: 0 <= j < |ids| && ids[j] < j && GapFree(ids[..ids[j]]) ==> ids[ids[j]] == ids[j]
  {
    FreeIdFirstGap(ids, 0);
    var r := FreeId(ids, 0);
    forall j | 0 <= j < |ids| && ids[j] < j && GapFree(ids[..ids[j]]) && ids[ids[j]] != ids[j] ensures ids[j] == r {
      var m := ids[j];
      assert forall i :: 0 <= i < m ==> ids[..m][i] == ids[i];
    }
    if j :| 0 <= j < |ids| && ids[j] == r {
      assert forall i :: 0 <= i < r ==> ids[..r][i] == ids[i];
    }
  }

  /** Every id stands for one hasher. */
  ghost predicate OneEach(hs: seq<State>) {
    forall i, j :: 0 <= i < j < |hs| ==> hs[i].id != hs[j].id
  }

  /** The event makes createHasher give an id that is in use. */
  ghost predicate GivesAgain(hs: seq<State>, e: Event, cfg: Limits)
    requires Possible(hs, e)
  {
    && e.Add? && !IsPathQueued(hs, e.item.path) && Target(hs, e.item, cfg).None?
    && !forall j :: 0 <= j < |hs| && hs[j].id < j && GapFree(Ids(hs)[..hs[j].id]) ==> hs[hs[j].id].id == hs[j].id
  }

  lemma {:induction false} SublistOneEach(hs: seq<State>, id: nat)
    requires OneEach(hs)
    ensures OneEach(WithoutId(hs, id))
  {
    if hs != [] {
      var rest, r := WithoutId(hs[1..], id), WithoutId(hs, id);
      SublistOneEach(hs[1..], id);
      WithoutIdSublist(hs[1..], id, 0);
      if hs[0].id != id {
        assert r[1..] == rest;
        forall j | 1 <= j < |r| ensures r[0].id != r[j].id {
          assert rest[j - 1] in hs[1..];
          var k :| 0 <= k < |hs[1..]| && hs[1..][k] == r[j];
          assert hs[k + 1] == r[j];
        }
        forall i, j | 1 <= i < j < |r| ensures r[i].id != r[j].id { assert rest[i - 1].id != rest[j - 1].id; }
      }
    }
  }

  lemma {:induction false} SameIds(hs: seq<State>, r: seq<State>)
    requires |r| == |hs| && forall i :: 0 <= i < |hs| ==> r[i].id == hs[i].id
    ensures OneEach(r) <==> OneEach(hs)
  {}

  lemma {:induction false} PlusOneEach(hs: seq<State>, x: State)
    requires OneEach(hs)
    ensures OneEach(hs + [x]) <==> x.id !in Ids(hs)
  {
    var r := hs + [x];
    assert r[|hs|] == x && forall i :: 0 <= i < |hs| ==> r[i] == hs[i];
    assert x.id in Ids(hs) <==> exists i :: 0 <= i < |hs| && hs[i].id == x.id by {
      if i :| 0 <= i < |hs| && hs[i].id == x.id { assert Ids(hs)[i] == x.id; }
    }
    hide Ids;
  }

  lemma {:induction false} AddOneEach(hs: seq<State>, item: Item, cfg: Limits)
    requires OneEach(hs) && Possible(hs, Add(item))
    ensures OneEach(AddFile(hs, item, cfg)) <==> !GivesAgain(hs, Add(item), cfg)
  {
    var id := FreeId(Ids(hs), 0);
    hide Next, IsPathQueued, Target, FreeId, Ids, OneEach;
    if IsPathQueued(hs, item.path) {
    } else if Target(hs, item, cfg).Some? {
      StepId(hs[Target(hs, item, cfg).value], Enqueue(item));
      SameIds(hs, AddFile(hs, item, cfg));
    } else {
      FreeIdNewExactly(Ids(hs));
      StepId(Fresh(id), Enqueue(item));
      PlusOneEach(hs, Next(Fresh(id), Enqueue(item)));
    }
  }

  /** Ids stay unique through an event exactly if it gives none again. */
  lemma {:induction false} EventOneEachExactly(hs: seq<State>, e: Event, cfg: Limits)
    requires OneEach(hs) && Possible(hs, e)
    ensures OneEach(HashScheduling.After(hs, e, cfg)) <==> !GivesAgain(hs, e, cfg)
  {
    match e
    case Add(item) => AddOneEach(hs, item, cfg);
    case Work(i, step) =>
      StepId(hs[i], step);
      hide Next, Can;
      if Next(hs[i], step).place == Gone {
        SublistOneEach(hs, hs[i].id);
      } else {
        SameIds(hs, hs[i := Next(hs[i], step)]);
      }
    case All(step) =>
      AllIds(hs, step);
      SameIds(hs, StepFirst(hs, |hs|, step));
  }

  ghost predicate AlwaysOneEach(hs: seq<State>, events: seq<Event>, cfg: Limits)
    requires HashScheduling.IsRun(hs, events, cfg)
    decreases |events|
  {
    OneEach(hs) && (events != [] ==> AlwaysOneEach(HashScheduling.After(hs, events[0], cfg), events[1..], cfg))
  }

  ghost predicate NeverGivesAgain(hs: seq<State>, events: seq<Event>, cfg: Limits)
    requires HashScheduling.IsRun(hs, events, cfg)
    decreases |events|
  {
    events != [] ==>
      !GivesAgain(hs, events[0], cfg) && NeverGivesAgain(HashScheduling.After(hs, events[0], cfg), events[1..], cfg)
  }

  /** In every run, ids are unique at every moment exactly if no new hasher is created in a list with an
      id out of place as described. */
  lemma {:induction false} UniqueExactly(hs: seq<State>, events: seq<Event>, cfg: Limits)
    requires OneEach(hs) && HashScheduling.IsRun(hs, events, cfg)
    ensures AlwaysOneEach(hs, events, cfg) <==> NeverGivesAgain(hs, events, cfg)
    decreases |events|
  {
    hide OneEach, GivesAgain, Possible, HashScheduling.After;
    if events != [] {
      EventOneEachExactly(hs, events[0], cfg);
      if !GivesAgain(hs, events[0], cfg) { UniqueExactly(HashScheduling.After(hs, events[0], cfg), events[1..], cfg); }
    }
  }

  // ---------------------------------------------------------------- files out of sight

  /** Which paths the manager still sees after a removal. */
  lemma {:induction false} QueuedAfterRemoval(hs: seq<State>, id: nat, path: string)
    ensures IsPathQueued(WithoutId(hs, id), path) <==>
      exists j :: 0 <= j < |hs| && HasPath(hs[j].w, path) && hs[j].id != id
  {
    hide HasPath;
    if hs != [] {
      var rest := hs[1..];
      QueuedAfterRemoval(rest, id, path);
      var r, tail := WithoutId(hs, id), WithoutId(rest, id);
      assert r == (if hs[0].id == id then [] else [hs[0]]) + tail;
      assert IsPathQueued(r, path) <==> (hs[0].id != id && HasPath(hs[0].w, path)) || IsPathQueued(tail, path) by {
        forall k | 0 <= k < |tail| && HasPath(tail[k].w, path) ensures IsPathQueued(r, path) {
          assert r[k + |r| - |tail|] == tail[k];
        }
        if hs[0].id != id {
          assert r[0] == hs[0];
          forall k | 1 <= k < |r| && HasPath(r[k].w, path) ensures IsPathQueued(tail, path) {
            assert tail[k - 1] == r[k];
          }
        }
      }
      forall j | 0 <= j < |rest| && HasPath(rest[j].w, path) && rest[j].id != id
        ensures exists m :: 0 <= m < |hs| && HasPath(hs[m].w, path) && hs[m].id != id {
        assert hs[j + 1] == rest[j];
      }
      forall m | 1 <= m < |hs| && HasPath(hs[m].w, path) && hs[m].id != id
        ensures exists j :: 0 <= j < |rest| && HasPath(rest[j].w, path) && rest[j].id != id {
        assert rest[m - 1] == hs[m];
      }
    }
  }

  /** When a worker leaves, a file that was queued vanishes from the manager's view exactly if
      another listed hasher has the same id and a non-empty queue. */
  lemma {:induction false} ExitLosesFilesExactly(hs: seq<State>, i: nat)
    requires i < |hs| && PathsUnique(hs) && hs[i].w == []
    ensures (exists path :: IsPathQueued(hs, path) && !IsPathQueued(WithoutId(hs, hs[i].id), path)) <==>
            (exists j :: 0 <= j < |hs| && j != i && hs[j].id == hs[i].id && hs[j].w != [])
  {
    var id := hs[i].id;
    var r := WithoutId(hs, id);
    if j :| 0 <= j < |hs| && j != i && hs[j].id == id && hs[j].w != [] {
      var path := hs[j].w[0].path;
      assert HasPath(hs[j].w, path);
      QueuedAfterRemoval(hs, id, path);
      assert IsPathQueued(hs, path) && !IsPathQueued(r, path);
    }
    if path :| IsPathQueued(hs, path) && !IsPathQueued(r, path) {
      var j :| 0 <= j < |hs| && HasPath(hs[j].w, path);
      QueuedAfterRemoval(hs, id, path);
      assert j != i && hs[j].w != [] && hs[j].id == id;
    }
  }

  // ---------------------------------------------------------------- a run that loses a file

  lemma {:induction false} RunStep(hs: seq<State>, e: Event, events: seq<Event>, cfg: Limits)
    requires Possible(hs, e) && HashScheduling.IsRun(HashScheduling.After(hs, e, cfg), events, cfg)
    ensures HashScheduling.IsRun(hs, [e] + events, cfg)
    ensures HashScheduling.Exec(hs, [e] + events, cfg) ==
      HashScheduling.Exec(HashScheduling.After(hs, e, cfg), events, cfg)
  {
    assert ([e] + events)[0] == e && ([e] + events)[1..] == events;
    hide Possible, HashScheduling.After;
  }

  lemma {:induction false} RunConcat(hs: seq<State>, a: seq<Event>, b: seq<Event>, cfg: Limits)
    requires HashScheduling.IsRun(hs, a, cfg) && HashScheduling.IsRun(HashScheduling.Exec(hs, a, cfg), b, cfg)
    ensures HashScheduling.IsRun(hs, a + b, cfg)
    ensures HashScheduling.Exec(hs, a + b, cfg) == HashScheduling.Exec(HashScheduling.Exec(hs, a, cfg), b, cfg)
    decreases |a|
  {
    hide Possible, HashScheduling.After;
    if a == [] {
      assert a + b == b;
    } else {
      RunConcat(HashScheduling.After(hs, a[0], cfg), a[1..], b, cfg);
      RunStep(hs, a[0], a[1..] + b, cfg);
      assert a + b == [a[0]] + (a[1..] + b);
    }
  }

  /** A hasher that got its first file. */
  function With(id: nat, item: Item): State { Next(Fresh(id), Enqueue(item)) }

  /** The worker of the i-th hasher takes its only file, which cannot be opened, and leaves. */
  function Life(i: nat): seq<Event> {
    [Work(i, Wake)] + ([Work(i, CheckStop)] + ([Work(i, Pick)] + ([Work(i, Fail)] +
    ([Work(i, Finish)] + ([Work(i, CheckStop)] + ([Work(i, Pick)] + ([Work(i, Decide)] + [])))))))
  }

  /** A section of the worker after which it is not gone. */
  predicate Stays(s: State, step: Step, t: State) {
    && Can(s, step) && !step.Enqueue? && !step.StopHashing? && !step.Stop? && !step.Shutdown?
    && Next(s, step) == t && t.place != Gone
  }

  /** One such section of the i-th hasher. */
  lemma {:induction false} Section(hs: seq<State>, i: nat, s: State, step: Step, t: State, events: seq<Event>,
      cfg: Limits)
    requires i < |hs| && Stays(s, step, t)
    requires HashScheduling.IsRun(hs[i := t], events, cfg)
    ensures HashScheduling.IsRun(hs[i := s], [Work(i, step)] + events, cfg)
    ensures HashScheduling.Exec(hs[i := s], [Work(i, step)] + events, cfg) ==
      HashScheduling.Exec(hs[i := t], events, cfg)
  {
    hide Next, Can;
    assert hs[i := s][i := t] == hs[i := t];
    assert HashScheduling.After(hs[i := s], Work(i, step), cfg) == hs[i := t];
    RunStep(hs[i := s], Work(i, step), events, cfg);
  }

  lemma {:induction false} LastSection(hs: seq<State>, i: nat, s: State, cfg: Limits)
    requires i < |hs| && s.id == hs[i].id && s.id != 0 && s.place == Leaving && s.w == []
    ensures var events := [Work(i, Decide)] + [];
      && HashScheduling.IsRun(hs[i := s], events, cfg)
      && HashScheduling.Exec(hs[i := s], events, cfg) == WithoutId(hs, hs[i].id)
  {
    var list := hs[i := s];
    assert Next(list[i], Decide).place == Gone;
    assert HashScheduling.After(list, Work(i, Decide), cfg) == WithoutId(list, s.id);
    WithoutIdReplaced(hs, i, s);
    hide WithoutId, Next, HashScheduling.After;
    var rest := WithoutId(list, s.id);
    assert HashScheduling.IsRun(rest, [], cfg) && HashScheduling.Exec(rest, [], cfg) == rest;
    RunStep(list, Work(i, Decide), [], cfg);
  }

  lemma {:induction false} WithoutIdReplaced(hs: seq<State>, i: nat, s: State)
    requires i < |hs| && s.id == hs[i].id
    ensures WithoutId(hs[i := s], s.id) == WithoutId(hs, s.id)
  {
    if i > 0 {
      assert hs[i := s][1..] == hs[1..][i - 1 := s];
      WithoutIdReplaced(hs[1..], i - 1, s);
    } else {
      assert hs[i := s][1..] == hs[1..];
    }
  }

  lemma {:induction false} LifeStates(id: nat, item: Item)
    returns (s1: State, s2: State, s3: State, s4: State, s5: State, s6: State, s7: State)
    ensures Stays(With(id, item), Wake, s1) && Stays(s1, CheckStop, s2) && Stays(s2, Pick, s3) && Stays(s3, Fail, s4)
    ensures Stays(s4, Finish, s5) && Stays(s5, CheckStop, s6) && Stays(s6, Pick, s7)
    ensures s7.id == id && s7.w == [] && (id != 0 ==> s7.place == Leaving)
  {
    FirstItem(Fresh(id), item);
    s1 := Next(With(id, item), Wake);
    s2 := Next(s1, CheckStop);
    s3 := Next(s2, Pick);
    s4 := Next(s3, Fail);
    s5 := Next(s4, Finish);
    s6 := Next(s5, CheckStop);
    s7 := Next(s6, Pick);
  }

  lemma {:induction false} LifeRuns(hs: seq<State>, i: nat, item: Item, cfg: Limits)
    requires i < |hs| && hs[i] == With(hs[i].id, item) && hs[i].id != 0
    ensures HashScheduling.IsRun(hs, Life(i), cfg) && HashScheduling.Exec(hs, Life(i), cfg) == WithoutId(hs, hs[i].id)
  {
    var s0 := hs[i];
    var s1, s2, s3, s4, s5, s6, s7 := LifeStates(s0.id, item);
    assert hs[i := s0] == hs;
    hide Stays, With, HashScheduling.IsRun, HashScheduling.Exec, WithoutId;
    LastSection(hs, i, s7, cfg);
    var es := [Work(i, Decide)] + [];
    Section(hs, i, s6, Pick, s7, es, cfg);
    es := [Work(i, Pick)] + es;
    Section(hs, i, s5, CheckStop, s6, es, cfg);
    es := [Work(i, CheckStop)] + es;
    Section(hs, i, s4, Finish, s5, es, cfg);
    es := [Work(i, Finish)] + es;
    Section(hs, i, s3, Fail, s4, es, cfg);
    es := [Work(i, Fail)] + es;
    Section(hs, i, s2, Pick, s3, es, cfg);
    es := [Work(i, Pick)] + es;
    Section(hs, i, s1, CheckStop, s2, es, cfg);
    es := [Work(i, CheckStop)] + es;
    Section(hs, i, s0, Wake, s1, es, cfg);
  }

  /** A file on a volume no hasher holds, while there may be more hashers. */
  lemma {:induction false} NewHasher(hs: seq<State>, item: Item, cfg: Limits)
    requires hs != [] && |hs| < cfg.maxThreads && !IsPathQueued(hs, item.path) && hs[0].devices != map[]
    requires forall i :: 0 <= i < |hs| ==> item.device !in hs[i].devices && Can(hs[i], Enqueue(item))
    ensures Possible(hs, Add(item))
    ensures HashScheduling.After(hs, Add(item), cfg) == hs + [With(FreeId(Ids(hs), 0), item)]
  {
    var vol := Holders(hs, item.device, |hs|);
    hide Next, Ids, FreeId, IsPathQueued;
  }

  lemma {:induction false} WithOne(id: nat, item: Item)
    ensures var s := With(id, item);
      && s.id == id && s.w == [item] && s.devices == map[item.device := 1]
      && s.place == Waiting && !s.shutdown
  {}

  lemma {:induction false} QueuedInOnes(hs: seq<State>, items: seq<Item>, path: string)
    requires |items| == |hs| && forall i :: 0 <= i < |hs| ==> hs[i].w == [items[i]]
    ensures IsPathQueued(hs, path) <==> exists i :: 0 <= i < |hs| && items[i].path == path
  {
    forall i | 0 <= i < |hs| ensures HasPath(hs[i].w, path) <==> items[i].path == path {
      assert hs[i].w[0] == items[i];
    }
  }

  /** The hashers have one file each. */
  ghost predicate Ones(hs: seq<State>, ids: seq<nat>, items: seq<Item>) {
    |hs| == |ids| == |items| && forall i :: 0 <= i < |hs| ==> hs[i] == With(ids[i], items[i])
  }

  lemma {:induction false} OneAt(hs: seq<State>, ids: seq<nat>, items: seq<Item>, i: nat)
    requires Ones(hs, ids, items) && i < |hs|
    ensures hs[i].id == ids[i] && hs[i].w == [items[i]] && hs[i].devices == map[items[i].device := 1]
    ensures hs[i].place == Waiting && !hs[i].shutdown
  {
    WithOne(ids[i], items[i]);
    hide With;
  }

  lemma {:induction false} OnesIds(hs: seq<State>, ids: seq<nat>, items: seq<Item>)
    requires Ones(hs, ids, items)
    ensures Ids(hs) == ids && forall i :: 0 <= i < |hs| ==> hs[i].w == [items[i]]
  {
    hide With, Ids;
    forall i | 0 <= i < |hs| ensures hs[i].id == ids[i] && hs[i].w == [items[i]] { OneAt(hs, ids, items, i); }
  }

  /** A file for another volume, when each hasher has one file of a volume of its own. */
  lemma {:induction false} NewBesideOnes(hs: seq<State>, ids: seq<nat>, items: seq<Item>, item: Item, cfg: Limits)
    requires hs != [] && |hs| < cfg.maxThreads && Ones(hs, ids, items)
    requires forall i :: 0 <= i < |hs| ==> items[i].path != item.path && items[i].device != item.device
    ensures Possible(hs, Add(item))
    ensures HashScheduling.After(hs, Add(item), cfg) == hs + [With(FreeId(ids, 0), item)]
  {
    OnesIds(hs, ids, items);
    QueuedInOnes(hs, items, item.path);
    OneAt(hs, ids, items, 0);
    assert items[0].device in hs[0].devices;
    forall i | 0 <= i < |hs| ensures item.device !in hs[i].devices && Can(hs[i], Enqueue(item)) {
      OneAt(hs, ids, items, i);
    }
    hide With, FreeId, Ones, Ids, IsPathQueued, Possible, HashScheduling.After, Can;
    NewHasher(hs, item, cfg);
  }

  /** Four files on four volumes. */
  ghost predicate FourVolumes(a: Item, b: Item, c: Item, d: Item) {
    && a.path !in {b.path, c.path, d.path} && b.path !in {c.path, d.path} && c.path != d.path
    && a.device !in {b.device, c.device, d.device} && b.device !in {c.device, d.device} && c.device != d.device
  }

  /** Three files make hashers 0, 1 and 2; hasher 1 is done and leaves; its file is queued again and
      makes a new hasher 1, behind 2; and the next file makes another hasher 1. */
  function Repeating(a: Item, b: Item, c: Item, d: Item): seq<Event> {
    [Add(a)] + ([Add(b)] + ([Add(c)] + (Life(1) + ([Add(b)] + ([Add(d)] + [])))))
  }

  lemma {:induction false} FirstFile(a: Item, cfg: Limits)
    ensures Possible([Fresh(0)], Add(a)) && HashScheduling.After([Fresh(0)], Add(a), cfg) == [With(0, a)]
  {
    var hs := [Fresh(0)];
    assert !IsPathQueued(hs, a.path);
    hide Next, GetFileHasher;
    assert hs[0 := With(0, a)] == [With(0, a)];
  }

  lemma {:induction false} GapIds()
    ensures FreeId([0], 0) == 1 && FreeId([0, 1], 0) == 2 && FreeId([0, 2], 0) == 1 && FreeId([0, 2, 1], 0) == 1
  {
    FreeIdFirstGap([0], 0);
    FreeIdFirstGap([0, 1], 0);
    FreeIdFirstGap([0, 2], 0);
    FreeIdFirstGap([0, 2, 1], 0);
  }

  lemma {:induction false} WithoutFirst(h: State, rest: seq<State>, id: nat)
    ensures WithoutId([h] + rest, id) == (if h.id == id then [] else [h]) + WithoutId(rest, id)
  {
    assert ([h] + rest)[1..] == rest;
  }

  lemma {:induction false} WithoutOnes(x: State, y: State, z: State, u: State)
    requires x.id == 0 && y.id == u.id == 1 && z.id == 2
    ensures WithoutId([x, y, z], 1) == [x, z] && WithoutId([x, z, y, u], 1) == [x, z]
  {
    var none: seq<State> := [];
    assert WithoutId(none, 1) == none;
    hide WithoutId;
    WithoutFirst(u, none, 1);
    WithoutFirst(y, [u], 1);
    WithoutFirst(z, none, 1);
    WithoutFirst(z, [y, u], 1);
    WithoutFirst(y, [z], 1);
    WithoutFirst(x, [y, z], 1);
    WithoutFirst(x, [z, y, u], 1);
    assert [u] + none == [u] && [y] + [u] == [y, u] && [z] + none == [z] && [z] + [y, u] == [z, y, u];
    assert [y] + [z] == [y, z] && [x] + [y, z] == [x, y, z] && [x] + [z, y, u] == [x, z, y, u];
  }

  lemma {:induction false} WithoutOne(a: Item, b: Item, c: Item, d: Item)
    ensures WithoutId([With(0, a), With(1, b), With(2, c)], 1) == [With(0, a), With(2, c)]
    ensures WithoutId([With(0, a), With(2, c), With(1, b), With(1, d)], 1) == [With(0, a), With(2, c)]
  {
    hide With, WithoutId;
    WithOne(0, a);
    WithOne(1, b);
    WithOne(2, c);
    WithOne(1, d);
    WithoutOnes(With(0, a), With(1, b), With(2, c), With(1, d));
  }

  lemma {:induction false} SecondHasher(a: Item, b: Item, cfg: Limits)
    requires a.path != b.path && a.device != b.device && cfg.maxThreads >= 2
    ensures Possible([With(0, a)], Add(b)) &&
      HashScheduling.After([With(0, a)], Add(b), cfg) == [With(0, a), With(1, b)]
  {
    hide With, FreeId, Possible, HashScheduling.After;
    GapIds();
    NewBesideOnes([With(0, a)], [0], [a], b, cfg);
  }

  lemma {:induction false} ThirdHasher(a: Item, i: nat, b: Item, c: Item, cfg: Limits)
    requires c.path !in {a.path, b.path} && c.device !in {a.device, b.device} && cfg.maxThreads >= 3
    ensures var hs := [With(0, a), With(i, b)];
      Possible(hs, Add(c)) && HashScheduling.After(hs, Add(c), cfg) ==
        [With(0, a), With(i, b), With(FreeId([0, i], 0), c)]
  {
    hide With, FreeId, Possible, HashScheduling.After;
    NewBesideOnes([With(0, a), With(i, b)], [0, i], [a, b], c, cfg);
  }

  lemma {:induction false} FourthHasher(a: Item, b: Item, c: Item, d: Item, cfg: Limits)
    requires FourVolumes(a, b, c, d) && cfg.maxThreads >= 4
    ensures var hs := [With(0, a), With(2, c), With(1, b)];
      Possible(hs, Add(d)) && HashScheduling.After(hs, Add(d), cfg) == [With(0, a), With(2, c), With(1, b), With(1, d)]
  {
    hide With, FreeId, Possible, HashScheduling.After;
    GapIds();
    NewBesideOnes([With(0, a), With(2, c), With(1, b)], [0, 2, 1], [a, c, b], d, cfg);
  }

  lemma {:induction false} NoMoreEvents(hs: seq<State>, cfg: Limits)
    ensures HashScheduling.IsRun(hs, [], cfg) && HashScheduling.Exec(hs, [], cfg) == hs
  {}

  lemma {:induction false} ToThree(a: Item, b: Item, c: Item, d: Item, cfg: Limits, late: seq<Event>)
    requires FourVolumes(a, b, c, d) && cfg.maxThreads >= 4
    requires HashScheduling.IsRun([With(0, a), With(1, b), With(2, c)], late, cfg)
    ensures var events := [Add(a)] + ([Add(b)] + ([Add(c)] + late));
      && HashScheduling.IsRun([Fresh(0)], events, cfg)
      && HashScheduling.Exec([Fresh(0)], events, cfg) ==
        HashScheduling.Exec([With(0, a), With(1, b), With(2, c)], late, cfg)
  {
    hide With, FreeId, Possible, HashScheduling.After, HashScheduling.IsRun, HashScheduling.Exec;
    GapIds();
    FirstFile(a, cfg);
    SecondHasher(a, b, cfg);
    ThirdHasher(a, 1, b, c, cfg);
    RunStep([With(0, a), With(1, b)], Add(c), late, cfg);
    RunStep([With(0, a)], Add(b), [Add(c)] + late, cfg);
    RunStep([Fresh(0)], Add(a), [Add(b)] + ([Add(c)] + late), cfg);
  }

  lemma {:induction false} FromTwo(a: Item, b: Item, c: Item, d: Item, cfg: Limits)
    requires FourVolumes(a, b, c, d) && cfg.maxThreads >= 4
    ensures var hs, events := [With(0, a), With(2, c)], [Add(b)] + ([Add(d)] + []);
      && HashScheduling.IsRun(hs, events, cfg)
      && HashScheduling.Exec(hs, events, cfg) == [With(0, a), With(2, c), With(1, b), With(1, d)]
  {
    hide With, FreeId, Possible, HashScheduling.After, HashScheduling.IsRun, HashScheduling.Exec;
    GapIds();
    ThirdHasher(a, 2, c, b, cfg);
    FourthHasher(a, b, c, d, cfg);
    NoMoreEvents([With(0, a), With(2, c), With(1, b), With(1, d)], cfg);
    RunStep([With(0, a), With(2, c), With(1, b)], Add(d), [], cfg);
    RunStep([With(0, a), With(2, c)], Add(b), [Add(d)] + [], cfg);
  }

  /** The run ends with two hashers that have the id 1.  When the first of them is done, both go, and the
      file of the other is no longer seen. */
  lemma {:induction false} IdsCanRepeat(a: Item, b: Item, c: Item, d: Item, cfg: Limits)
    requires FourVolumes(a, b, c, d) && cfg.maxThreads >= 4
    ensures HashScheduling.IsRun([Fresh(0)], Repeating(a, b, c, d), cfg)
    ensures HashScheduling.Exec([Fresh(0)], Repeating(a, b, c, d), cfg) ==
      [With(0, a), With(2, c), With(1, b), With(1, d)]
  {
    var three, two, late := [With(0, a), With(1, b), With(2, c)], [With(0, a), With(2, c)], [Add(b)] + ([Add(d)] + []);
    hide With, HashScheduling.IsRun, HashScheduling.Exec, Life, WithoutId, Possible, HashScheduling.After;
    WithOne(1, b);
    WithoutOne(a, b, c, d);
    LifeRuns(three, 1, b, cfg);
    FromTwo(a, b, c, d, cfg);
    RunConcat(three, Life(1), late, cfg);
    ToThree(a, b, c, d, cfg, Life(1) + late);
  }

  lemma {:induction false} SeenOnes(x: State, z: State, y: State, u: State, path: string)
    requires !HasPath(x.w, path) && !HasPath(z.w, path) && HasPath(u.w, path)
    ensures IsPathQueued([x, z, y, u], path) && !IsPathQueued([x, z], path)
  {
    hide HasPath;
    assert [x, z, y, u][3] == u;
  }

  lemma {:induction false} HasOnly(id: nat, item: Item, path: string)
    ensures HasPath(With(id, item).w, path) <==> item.path == path
  {
    WithOne(id, item);
    hide With;
    var s := With(id, item);
    assert s.w[0] == item;
  }

  lemma {:induction false} RepeatedLosesFile(a: Item, b: Item, c: Item, d: Item, cfg: Limits)
    requires FourVolumes(a, b, c, d)
    ensures var hs := [With(0, a), With(2, c), With(1, b), With(1, d)];
      && HashScheduling.IsRun(hs, Life(2), cfg)
      && IsPathQueued(hs, d.path) && !IsPathQueued(HashScheduling.Exec(hs, Life(2), cfg), d.path)
  {
    hide With, HashScheduling.IsRun, HashScheduling.Exec, Life, WithoutId, IsPathQueued, HasPath;
    WithOne(1, b);
    WithoutOne(a, b, c, d);
    LifeRuns([With(0, a), With(2, c), With(1, b), With(1, d)], 2, b, cfg);
    HasOnly(0, a, d.path);
    HasOnly(2, c, d.path);
    HasOnly(1, d, d.path);
    SeenOnes(With(0, a), With(2, c), With(1, b), With(1, d), d.path);
  }
}
