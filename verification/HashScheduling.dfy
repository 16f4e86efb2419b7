/** Choosing a hasher for a file (hash/HashManager.cpp), over the states of the listed hashers.

    `AddFile` is the decision and its effect; `Exec` lets it interleave with the workers and with
    the removal of queued directories. */
module HashScheduling {
  import opened HasherQueue
  import opened HasherWorker
  import opened Options
  import opened Ordering

  /** MAX_HASHING_THREADS and HASHERS_PER_VOLUME (0: no limit). */
  datatype Limits = Limits(maxThreads: nat, perVolume: nat)

  const MB := 1024 * 1024

  // ---------------------------------------------------------------- the decision

  predicate IsPathQueued(hs: seq<State>, path: string) {
    exists i :: 0 <= i < |hs| && HasPath(hs[i].w, path)
  }

  function Indices(n: nat): (r: seq<nat>)
    ensures |r| == n && forall i :: 0 <= i < n ==> r[i] == i
  {
    if n == 0 then [] else Indices(n - 1) + [n - 1]
  }

  /** The first n hashers that hold the device. */
  function Holders(hs: seq<State>, d: nat, n: nat): (r: seq<nat>)
    requires n <= |hs|
    ensures |r| <= n && forall k :: 0 <= k < |r| ==> r[k] < n && d in hs[r[k]].devices
  {
    if n == 0 then []
    else Holders(hs, d, n - 1) + (if d in hs[n - 1].devices then [n - 1] else [])
  }

  /** min_element by bytes left: the first of the smallest. */
  function LeastLoaded(hs: seq<State>, among: seq<nat>, n: nat): (r: nat)
    requires 1 <= n <= |among| && forall k :: 0 <= k < |among| ==> among[k] < |hs|
    ensures r < |hs| && exists k :: 0 <= k < n && among[k] == r
    ensures forall k :: 0 <= k < n ==> hs[r].bytesLeft <= hs[among[k]].bytesLeft
  {
    if n == 1 then among[0]
    else
      var best := LeastLoaded(hs, among, n - 1);
      if hs[among[n - 1]].bytesLeft < hs[best].bytesLeft then among[n - 1] else best
  }

  /** getFileHasher: a listed hasher, or None if a new one is to be created. */
  function GetFileHasher(hs: seq<State>, d: nat, size: nat, cfg: Limits): (r: Option<nat>)
    requires |hs| >= cfg.maxThreads ==> hs != []
    ensures r.Some? ==> r.value < |hs|
  {
    var full := |hs| >= cfg.maxThreads;
    var vol := Holders(hs, d, |hs|);
    if vol == [] && full then Some(LeastLoaded(hs, Indices(|hs|), |hs|))
    else if vol != [] then
      var least := LeastLoaded(hs, vol, |vol|);
      var volumeFull := |vol| >= cfg.perVolume && cfg.perVolume > 0;
      var reuse := size <= 10 * MB && hs[least].bytesLeft <= 200 * MB;
      if full || volumeFull || reuse then Some(least) else None
    else None
  }

  /** createHasher's id: the first position whose hasher has another id. */
  function FreeId(ids: seq<nat>, id: nat): nat
    requires id <= |ids|
    decreases |ids| - id
  {
    if id < |ids| && ids[id] == id then FreeId(ids, id + 1) else id
  }

  function Ids(hs: seq<State>): (r: seq<nat>)
    ensures |r| == |hs| && forall i :: 0 <= i < |hs| ==> r[i] == hs[i].id
  {
    if hs == [] then [] else [hs[0].id] + Ids(hs[1..])
  }

  /** Which hasher gets a file that is not queued yet. */
  function Target(hs: seq<State>, item: Item, cfg: Limits): (r: Option<nat>)
    requires hs != []
    ensures r.Some? ==> r.value < |hs|
  {
    if |hs| == 1 && hs[0].devices == map[] then Some(0)
    else GetFileHasher(hs, item.device, item.size, cfg)
  }

  /** hashFile. */
  function AddFile(hs: seq<State>, item: Item, cfg: Limits): seq<State>
    requires hs != [] && forall i :: 0 <= i < |hs| ==> Can(hs[i], Enqueue(item))
  {
    if IsPathQueued(hs, item.path) then hs
    else
      match Target(hs, item, cfg)
      case Some(i) => hs[i := Next(hs[i], Enqueue(item))]
      case None => hs + [Next(Fresh(FreeId(Ids(hs), 0)), Enqueue(item))]
  }

  /** removeHasher: everything with that id goes. */
  function WithoutId(hs: seq<State>, id: nat): seq<State> {
    if hs == [] then [] else (if hs[0].id == id then [] else [hs[0]]) + WithoutId(hs[1..], id)
  }

  // ---------------------------------------------------------------- runs

  datatype Event =
    | Add(item: Item)
    | Work(i: nat, step: Step)      // an atomic section of the i-th hasher's worker
    | All(step: Step)               // stopHashing, stop or shutdown on every hasher

  predicate Possible(hs: seq<State>, e: Event) {
    match e
    case Add(item) => hs != [] && forall i :: 0 <= i < |hs| ==> Can(hs[i], Enqueue(item))
    case Work(i, step) =>
      && i < |hs| && Can(hs[i], step)
      && !step.Enqueue? && !step.StopHashing? && !step.Stop? && !step.Shutdown?
    case All(step) =>
      (step.StopHashing? || step.Stop? || step.Shutdown?) && forall i :: 0 <= i < |hs| ==> Can(hs[i], step)
  }

  function After(hs: seq<State>, e: Event, cfg: Limits): seq<State>
    requires Possible(hs, e)
  {
    match e
    case Add(item) => AddFile(hs, item, cfg)
    case Work(i, step) =>
      var t := Next(hs[i], step);
      if t.place == Gone then WithoutId(hs, t.id) else hs[i := t]
    case All(step) => StepFirst(hs, |hs|, step)
  }

  /** The list after a step of the first n hashers. */
  function StepFirst(hs: seq<State>, n: nat, step: Step): (r: seq<State>)
    requires n <= |hs| && forall i :: 0 <= i < |hs| ==> Can(hs[i], step)
    ensures |r| == |hs| && forall i :: n <= i < |hs| ==> r[i] == hs[i]
  {
    if n == 0 then hs else StepFirst(hs, n - 1, step)[n - 1 := Next(hs[n - 1], step)]
  }

  /** Neither stop nor shutdown. */
  predicate GoesOn(e: Event) {
    e.All? ==> e.step.StopHashing?
  }

  predicate IsRun(hs: seq<State>, events: seq<Event>, cfg: Limits)
    decreases |events|
  {
    events == [] || (Possible(hs, events[0]) && IsRun(After(hs, events[0], cfg), events[1..], cfg))
  }

  function Exec(hs: seq<State>, events: seq<Event>, cfg: Limits): seq<State>
    requires IsRun(hs, events, cfg)
    decreases |events|
  {
    if events == [] then hs else Exec(After(hs, events[0], cfg), events[1..], cfg)
  }

  // ---------------------------------------------------------------- the bounds

  /** How many hashers hold a device. */
  function HolderCount(hs: seq<State>, d: nat): nat {
    if hs == [] then 0 else (if d in hs[0].devices then 1 else 0) + HolderCount(hs[1..], d)
  }

  ghost predicate Healthy(s: State) {
    Counted(s) && Awake(s) && !s.stopping && !s.shutdown && s.place != Gone
  }

  ghost predicate AllHealthy(hs: seq<State>) {
    forall i :: 0 <= i < |hs| ==> Healthy(hs[i])
  }

  ghost predicate VolumesBounded(hs: seq<State>, cfg: Limits) {
    cfg.perVolume > 0 ==> forall d :: HolderCount(hs, d) <= cfg.perVolume
  }

  ghost predicate PathsUnique(hs: seq<State>) {
    forall i, j, path :: 0 <= i < j < |hs| && HasPath(hs[i].w, path) ==> !HasPath(hs[j].w, path)
  }

  /** The number of hashers, the hashers per volume and the places a path is queued in. */
  ghost predicate Bounded(hs: seq<State>, cfg: Limits) {
    |hs| <= cfg.maxThreads && VolumesBounded(hs, cfg) && PathsUnique(hs)
  }

  /** Besides, the main hasher leads the list and every hasher's device counts are right. */
  ghost predicate Sound(hs: seq<State>, cfg: Limits) {
    hs != [] && hs[0].id == 0 && AllHealthy(hs) && Bounded(hs, cfg)
  }

  lemma {:induction false} HolderCountAppend(a: seq<State>, b: seq<State>, d: nat)
    ensures HolderCount(a + b, d) == HolderCount(a, d) + HolderCount(b, d)
  {
    if a == [] {
      assert a + b == b;
    } else {
      assert (a + b)[1..] == a[1..] + b;
      HolderCountAppend(a[1..], b, d);
    }
  }

  lemma {:induction false} HolderCountUpdate(hs: seq<State>, i: nat, t: State, d: nat)
    requires i < |hs|
    ensures HolderCount(hs[i := t], d) ==
      HolderCount(hs, d) - (if d in hs[i].devices then 1 else 0) + (if d in t.devices then 1 else 0)
  {
    var tail := hs[i + 1..];
    assert hs == hs[..i] + ([hs[i]] + tail) && hs[i := t] == hs[..i] + ([t] + tail);
    HolderCountAppend(hs[..i], [hs[i]] + tail, d);
    HolderCountAppend(hs[..i], [t] + tail, d);
    assert ([hs[i]] + tail)[1..] == tail && ([t] + tail)[1..] == tail;
  }

  lemma {:induction false} HoldersCounted(hs: seq<State>, d: nat, n: nat)
    requires n <= |hs|
    ensures |Holders(hs, d, n)| == HolderCount(hs[..n], d)
  {
    if n > 0 {
      HoldersCounted(hs, d, n - 1);
      assert hs[..n] == hs[..n - 1] + [hs[n - 1]];
      HolderCountAppend(hs[..n - 1], [hs[n - 1]], d);
      assert [hs[n - 1]][1..] == [];
    }
  }

  /** A worker section or a purge gives a hasher no new device and no new path. */
  lemma {:induction false} StepShrinks(s: State, step: Step)
    requires Can(s, step) && !step.Enqueue?
    ensures forall d :: d in Next(s, step).devices ==> d in s.devices
    ensures forall path :: HasPath(Next(s, step).w, path) ==> HasPath(s.w, path)
    ensures Next(s, step).id == s.id
  {
    var t := Next(s, step);
    if step.StopHashing? {
      PurgeLeaves(s, 0, step.under);
      PurgeFrame(s, 0, step.under);
      PurgeDevices(s, 0, step.under);
      assert s.w[0..] == s.w && s.w[..0] == [];
      forall path | HasPath(t.w, path) ensures HasPath(s.w, path) {
        var i :| 0 <= i < |t.w| && t.w[i].path == path;
        WithoutExact(s.w, step.under, t.w[i]);
        assert t.w[i] in s.w;
      }
    }
  }

  lemma {:induction false} PurgeDevices(s: State, i: nat, under: Item -> bool)
    requires i <= |s.w|
    ensures forall d :: d in HasherWorker.Purge(s, i, under).devices ==> d in s.devices
    decreases |s.w| - i
  {
    if i < |s.w| {
      if under(s.w[i]) { PurgeDevices(Drop(s, i), i, under); } else { PurgeDevices(s, i + 1, under); }
    }
  }

  lemma {:induction false} WorkKeepsHealthy(s: State, step: Step)
    requires Healthy(s) && Can(s, step) && !step.Stop? && !step.Shutdown?
    ensures Next(s, step).place != Gone ==> Healthy(Next(s, step))
  {
    StepConserves(s, step);
    StepKeepsAwake(s, step);
    if step.StopHashing? { PurgeFrame(s, 0, step.under); }
  }

  /** One hasher replaced by one with no more devices and paths. */
  lemma {:induction false} UpdateBounded(hs: seq<State>, i: nat, t: State, cfg: Limits)
    requires Bounded(hs, cfg) && i < |hs|
    requires forall d :: d in t.devices ==> d in hs[i].devices
    requires forall path :: HasPath(t.w, path) ==> HasPath(hs[i].w, path)
    ensures Bounded(hs[i := t], cfg)
  {
    var r := hs[i := t];
    hide HasPath;
    forall d ensures HolderCount(r, d) <= HolderCount(hs, d) {
      HolderCountUpdate(hs, i, t, d);
    }
    if cfg.perVolume > 0 {
      forall d ensures HolderCount(r, d) <= cfg.perVolume {
        assert HolderCount(hs, d) <= cfg.perVolume;
      }
    }
  }

  lemma {:induction false} UpdateHealthy(hs: seq<State>, i: nat, t: State)
    requires AllHealthy(hs) && i < |hs| && Healthy(t)
    ensures AllHealthy(hs[i := t])
  {
    hide Healthy;
  }

  lemma {:induction false} WithoutIdSublist(hs: seq<State>, id: nat, d: nat)
    ensures var r := WithoutId(hs, id);
      && |r| <= |hs| && HolderCount(r, d) <= HolderCount(hs, d)
      && (forall k :: 0 <= k < |r| ==> r[k] in hs)
      && (hs != [] && hs[0].id != id ==> r != [] && r[0] == hs[0])
  {
    if hs != [] {
      WithoutIdSublist(hs[1..], id, d);
      var r, rest := WithoutId(hs, id), WithoutId(hs[1..], id);
      if hs[0].id != id {
        assert r == [hs[0]] + rest && r[1..] == rest;
        assert HolderCount(r, d) == (if d in hs[0].devices then 1 else 0) + HolderCount(rest, d);
      } else {
        assert r == rest;
      }
    }
  }

  lemma {:induction false} WithoutIdUnique(hs: seq<State>, id: nat)
    requires PathsUnique(hs)
    ensures PathsUnique(WithoutId(hs, id))
  {
    hide HasPath;
    if hs != [] {
      assert PathsUnique(hs[1..]) by {
        forall i, j, path | 0 <= i < j < |hs[1..]| && HasPath(hs[1..][i].w, path) ensures !HasPath(hs[1..][j].w, path) {
          assert HasPath(hs[i + 1].w, path);
        }
      }
      WithoutIdUnique(hs[1..], id);
      if hs[0].id != id {
        var r := WithoutId(hs, id);
        assert r[1..] == WithoutId(hs[1..], id);
        forall i, j, path | 0 <= i < j < |r| && HasPath(r[i].w, path) ensures !HasPath(r[j].w, path) {
          if i > 0 {
            assert HasPath(r[1..][i - 1].w, path);
            assert !HasPath(r[1..][j - 1].w, path);
          } else {
            WithoutIdSublist(hs[1..], id, 0);
            assert r[1..][j - 1] in hs[1..];
            var k :| 0 <= k < |hs[1..]| && hs[1..][k] == r[j];
            assert hs[k + 1] == r[j];
          }
        }
      }
    }
  }

  lemma {:induction false} RemovalBounded(hs: seq<State>, id: nat, cfg: Limits)
    requires Bounded(hs, cfg)
    ensures Bounded(WithoutId(hs, id), cfg)
  {
    var r := WithoutId(hs, id);
    hide WithoutId, HasPath;
    WithoutIdSublist(hs, id, 0);
    forall d ensures HolderCount(r, d) <= HolderCount(hs, d) { WithoutIdSublist(hs, id, d); }
    WithoutIdUnique(hs, id);
  }

  lemma {:induction false} RemovalHealthy(hs: seq<State>, id: nat)
    requires AllHealthy(hs)
    ensures AllHealthy(WithoutId(hs, id))
  {
    var r := WithoutId(hs, id);
    WithoutIdSublist(hs, id, 0);
    hide Healthy, WithoutId;
    forall i | 0 <= i < |r| ensures Healthy(r[i]) { assert r[i] in hs; }
  }

  /** Queueing a file: the chosen hasher already holds the volume, or the volume has room. */
  lemma {:induction false} AddBounded(hs: seq<State>, item: Item, cfg: Limits)
    requires Bounded(hs, cfg) && Possible(hs, Add(item))
    ensures Bounded(AddFile(hs, item, cfg), cfg)
  {
    hide Bounded, IsPathQueued, Target, Next;
    if !IsPathQueued(hs, item.path) {
      if Target(hs, item, cfg).Some? {
        TargetHasRoom(hs, item, cfg);
        EnqueueBounded(hs, Target(hs, item, cfg).value, item, cfg);
      } else {
        NewHasherBounded(hs, item, cfg);
      }
    }
  }

  lemma {:induction false} EnqueuedHealthy(s: State, item: Item)
    requires Healthy(s) && Can(s, Enqueue(item))
    ensures Healthy(Next(s, Enqueue(item))) && Next(s, Enqueue(item)).id == s.id
  {
    EnqueuedStays(s, item);
    WorkKeepsHealthy(s, Enqueue(item));
    hide Healthy, Next;
  }

  /** Queueing leaves the list, changes one hasher, or adds one. */
  lemma {:induction false} AddCases(hs: seq<State>, item: Item, cfg: Limits) returns (i: nat, id: nat)
    requires Possible(hs, Add(item))
    ensures i < |hs| && Can(hs[i], Enqueue(item)) && Can(Fresh(id), Enqueue(item))
    ensures AddFile(hs, item, cfg) in [hs, hs[i := Next(hs[i], Enqueue(item))], hs + [Next(Fresh(id), Enqueue(item))]]
  {
    id := FreeId(Ids(hs), 0);
    i := 0;
    hide IsPathQueued, Target, FreeId, Ids, Next;
    if !IsPathQueued(hs, item.path) && Target(hs, item, cfg).Some? { i := Target(hs, item, cfg).value; }
  }

  lemma {:induction false} AddHealthy(hs: seq<State>, item: Item, cfg: Limits)
    requires AllHealthy(hs) && Possible(hs, Add(item))
    ensures var r := AddFile(hs, item, cfg); AllHealthy(r) && r != [] && r[0].id == hs[0].id
  {
    var i, id := AddCases(hs, item, cfg);
    FreshHealthy(Fresh(id));
    EnqueuedHealthy(Fresh(id), item);
    assert Healthy(hs[i]);
    EnqueuedHealthy(hs[i], item);
    hide Healthy, Next, AddFile, Can;
  }

  lemma {:induction false} AddKeeps(hs: seq<State>, item: Item, cfg: Limits)
    requires Sound(hs, cfg) && Possible(hs, Add(item))
    ensures Sound(AddFile(hs, item, cfg), cfg)
  {
    AddBounded(hs, item, cfg);
    AddHealthy(hs, item, cfg);
    hide Bounded, AllHealthy, AddFile;
  }

  lemma {:induction false} EnqueuedStays(s: State, item: Item)
    requires Can(s, Enqueue(item))
    ensures Next(s, Enqueue(item)).place == s.place && Next(s, Enqueue(item)).id == s.id
  {}

  lemma {:induction false} NewHasherBounded(hs: seq<State>, item: Item, cfg: Limits)
    requires Bounded(hs, cfg) && hs != [] && !IsPathQueued(hs, item.path) && Target(hs, item, cfg).None?
    ensures var added := Fresh(FreeId(Ids(hs), 0));
      Can(added, Enqueue(item)) && Bounded(hs + [Next(added, Enqueue(item))], cfg)
  {
    var added := Fresh(FreeId(Ids(hs), 0));
    HoldersCounted(hs, item.device, |hs|);
    assert hs[..|hs|] == hs;
    FirstItem(added, item);
    hide Bounded, IsPathQueued, HolderCount, LeastLoaded, FreeId, Ids, Next;
    AppendBounded(hs, Next(added, Enqueue(item)), item, cfg);
  }

  lemma {:induction false} FirstItem(s: State, item: Item)
    requires s == Fresh(s.id)
    ensures Can(s, Enqueue(item))
    ensures var t := Next(s, Enqueue(item)); t.w == [item] && t.devices == map[item.device := 1] && t.place == s.place
  {}

  lemma {:induction false} TargetHasRoom(hs: seq<State>, item: Item, cfg: Limits)
    requires Bounded(hs, cfg) && hs != [] && Target(hs, item, cfg).Some?
    ensures var i := Target(hs, item, cfg).value;
      item.device in hs[i].devices || HolderCount(hs, item.device) == 0
  {
    HoldersCounted(hs, item.device, |hs|);
    assert hs[..|hs|] == hs;
    if |hs| == 1 && hs[0].devices == map[] { NoHolders(hs, item.device); }
    hide Bounded, HolderCount, IsPathQueued;
  }

  lemma {:induction false} InsertPath(w: seq<Item>, item: Item, path: string)
    requires HasPath(Insert(w, item), path)
    ensures HasPath(w, path) || path == item.path
  {
    var p := Position(w, item.path);
    var r := Insert(w, item);
    var k :| 0 <= k < |r| && r[k].path == path;
    if k < p { assert w[k].path == path; } else if k > p { assert w[k - 1].path == path; }
  }

  lemma {:induction false} EnqueueBounded(hs: seq<State>, i: nat, item: Item, cfg: Limits)
    requires Bounded(hs, cfg) && i < |hs| && !IsPathQueued(hs, item.path) && Can(hs[i], Enqueue(item))
    requires item.device in hs[i].devices || HolderCount(hs, item.device) == 0
    ensures Bounded(hs[i := Next(hs[i], Enqueue(item))], cfg)
  {
    hide Insert, Position;
    var t := Next(hs[i], Enqueue(item));
    var r := hs[i := t];
    assert !HasPath(hs[i].w, item.path);
    forall d ensures cfg.perVolume > 0 ==> HolderCount(r, d) <= cfg.perVolume {
      HolderCountUpdate(hs, i, t, d);
    }
    forall a, b, path | 0 <= a < b < |r| && HasPath(r[a].w, path) ensures !HasPath(r[b].w, path) {
      if a == i {
        InsertPath(hs[i].w, item, path);
      } else if b == i && HasPath(t.w, path) {
        InsertPath(hs[i].w, item, path);
      }
    }
  }

  lemma {:induction false} AppendBounded(hs: seq<State>, t: State, item: Item, cfg: Limits)
    requires Bounded(hs, cfg) && |hs| < cfg.maxThreads && !IsPathQueued(hs, item.path)
    requires t.w == [item] && t.devices == map[item.device := 1]
    requires cfg.perVolume > 0 ==> HolderCount(hs, item.device) < cfg.perVolume
    ensures Bounded(hs + [t], cfg)
  {
    var r := hs + [t];
    forall d ensures cfg.perVolume > 0 ==> HolderCount(r, d) <= cfg.perVolume {
      HolderCountAppend(hs, [t], d);
      assert [t][1..] == [];
    }
    forall a, b, path | 0 <= a < b < |r| && HasPath(r[a].w, path) ensures !HasPath(r[b].w, path) {
      if b == |hs| {
        assert HasPath(hs[a].w, path) ==> path != item.path;
      }
    }
  }

  lemma {:induction false} AllBounded(hs: seq<State>, n: nat, step: Step, cfg: Limits)
    requires Bounded(hs, cfg) && n <= |hs| && Possible(hs, All(step))
    ensures Bounded(StepFirst(hs, n, step), cfg)
  {
    if n > 0 {
      AllBounded(hs, n - 1, step, cfg);
      StepShrinks(hs[n - 1], step);
      hide Bounded, Next, HasPath;
      UpdateBounded(StepFirst(hs, n - 1, step), n - 1, Next(hs[n - 1], step), cfg);
    }
  }

  lemma {:induction false} PurgedHealthy(s: State, under: Item -> bool)
    requires Healthy(s) && Can(s, StopHashing(under))
    ensures Healthy(Next(s, StopHashing(under))) && Next(s, StopHashing(under)).id == s.id
  {
    PurgeFrame(s, 0, under);
    WorkKeepsHealthy(s, StopHashing(under));
    hide Counted, Awake, Purge;
  }

  lemma {:induction false} SteppedFirst(hs: seq<State>, n: nat, step: Step)
    requires Possible(hs, All(step)) && n <= |hs|
    ensures forall k :: 0 <= k < n ==> StepFirst(hs, n, step)[k] == Next(hs[k], step)
  {
    if n > 0 { SteppedFirst(hs, n - 1, step); }
    hide Next, Can;
  }

  lemma {:induction false} StepId(s: State, step: Step)
    requires Can(s, step)
    ensures Next(s, step).id == s.id
  {
    if step.StopHashing? { PurgeFrame(s, 0, step.under); }
  }

  lemma {:induction false} AllIds(hs: seq<State>, step: Step)
    requires Possible(hs, All(step))
    ensures forall i :: 0 <= i < |hs| ==> StepFirst(hs, |hs|, step)[i].id == hs[i].id
  {
    SteppedFirst(hs, |hs|, step);
    hide Next, Can, StepFirst;
    forall i | 0 <= i < |hs| ensures Next(hs[i], step).id == hs[i].id { StepId(hs[i], step); }
  }

  lemma {:induction false} PurgeHealthy(hs: seq<State>, under: Item -> bool)
    requires AllHealthy(hs) && Possible(hs, All(StopHashing(under)))
    ensures AllHealthy(StepFirst(hs, |hs|, StopHashing(under)))
  {
    SteppedFirst(hs, |hs|, StopHashing(under));
    hide Healthy, Next, Can, StepFirst;
    forall i | 0 <= i < |hs| ensures Healthy(Next(hs[i], StopHashing(under))) { PurgedHealthy(hs[i], under); }
  }

  /** Every event keeps the bounds, stops included. */
  lemma {:induction false} EventBounded(hs: seq<State>, e: Event, cfg: Limits)
    requires Bounded(hs, cfg) && Possible(hs, e)
    ensures Bounded(After(hs, e, cfg), cfg)
  {
    match e
    case Add(item) => AddBounded(hs, item, cfg);
    case Work(i, step) =>
      StepShrinks(hs[i], step);
      hide Bounded, Next, Can, HasPath, WithoutId;
      if Next(hs[i], step).place == Gone {
        RemovalBounded(hs, Next(hs[i], step).id, cfg);
      } else {
        UpdateBounded(hs, i, Next(hs[i], step), cfg);
      }
    case All(step) => AllBounded(hs, |hs|, step, cfg);
  }

  lemma {:induction false} EventKeeps(hs: seq<State>, e: Event, cfg: Limits)
    requires Sound(hs, cfg) && Possible(hs, e) && GoesOn(e)
    ensures Sound(After(hs, e, cfg), cfg)
  {
    EventBounded(hs, e, cfg);
    match e
    case Add(item) => AddKeeps(hs, item, cfg);
    case Work(i, step) =>
      assert Healthy(hs[i]);
      StepShrinks(hs[i], step);
      WorkKeepsHealthy(hs[i], step);
      LeavesHealthy(hs[i], step);
      hide Bounded, Healthy, Next, Can;
      if Next(hs[i], step).place == Gone {
        WithoutIdSublist(hs, hs[i].id, 0);
        RemovalHealthy(hs, hs[i].id);
      } else {
        UpdateHealthy(hs, i, Next(hs[i], step));
      }
    case All(step) =>
      PurgeHealthy(hs, step.under);
      AllIds(hs, step);
      hide AllHealthy, Bounded, Can, Next, StepFirst;
  }

  /** Without a shutdown the main hasher does not leave. */
  lemma {:induction false} LeavesHealthy(s: State, step: Step)
    requires Healthy(s) && Can(s, step) && !step.StopHashing?
    ensures Next(s, step).place == Gone ==> s.id != 0
  {
    hide Counted, Awake;
  }

  /** In every interleaving of queueing, hashing, removing directories and stopping: the hashers stay
      within the thread limit, those holding a volume within the volume limit, and no path is queued
      twice. */
  lemma {:induction false} RunsBounded(hs: seq<State>, events: seq<Event>, cfg: Limits)
    requires Bounded(hs, cfg) && IsRun(hs, events, cfg)
    ensures Bounded(Exec(hs, events, cfg), cfg)
    decreases |events|
  {
    if events != [] {
      EventBounded(hs, events[0], cfg);
      hide Bounded, After, Possible;
      RunsBounded(After(hs, events[0], cfg), events[1..], cfg);
    }
  }

  /** Without stops every hasher's device counts and wake-ups are right besides. */
  lemma {:induction false} RunsSound(hs: seq<State>, events: seq<Event>, cfg: Limits)
    requires Sound(hs, cfg) && IsRun(hs, events, cfg) && forall e :: e in events ==> GoesOn(e)
    ensures Sound(Exec(hs, events, cfg), cfg)
    decreases |events|
  {
    if events != [] {
      assert GoesOn(events[0]);
      EventKeeps(hs, events[0], cfg);
      hide Sound, After, Possible, GoesOn;
      RunsSound(After(hs, events[0], cfg), events[1..], cfg);
    }
  }

  /** How many hashers have an item of the volume, queued or in flight. */
  ghost function BusyCount(hs: seq<State>, d: nat): nat {
    if hs == [] then 0 else (if Count(hs[0].w + hs[0].Flight(), d) > 0 then 1 else 0) + BusyCount(hs[1..], d)
  }

  /** While the device counts are right, the hashers that hold a volume are those busy with it. */
  lemma {:induction false} HoldersAreBusy(hs: seq<State>, d: nat)
    requires forall i :: 0 <= i < |hs| ==> Counted(hs[i])
    ensures BusyCount(hs, d) == HolderCount(hs, d)
  {
    if hs != [] {
      assert Counted(hs[0]);
      CountAppend(hs[0].w, hs[0].Flight(), d);
      HoldersAreBusy(hs[1..], d);
    }
  }

  /** The single idle main hasher that every session starts with. */
  lemma {:induction false} StartSound(hs: seq<State>, cfg: Limits)
    requires cfg.maxThreads >= 1 && |hs| == 1 && hs[0] == Fresh(hs[0].id) && hs[0].id == 0
    ensures Sound(hs, cfg)
  {
    FreshHealthy(hs[0]);
    hide *;
    SingleSound(hs, cfg);
  }

  lemma {:induction false} SingleSound(hs: seq<State>, cfg: Limits)
    requires cfg.maxThreads >= 1 && |hs| == 1 && Healthy(hs[0]) && hs[0].id == 0 && hs[0].devices == map[]
    ensures Sound(hs, cfg)
  {
    hide Healthy, HasPath, HolderCount;
    assert PathsUnique(hs);
    assert AllHealthy(hs);
    forall d ensures HolderCount(hs, d) == 0 { NoHolders(hs, d); }
  }

  lemma {:induction false} FreshHealthy(main: State)
    requires main == Fresh(main.id)
    ensures Healthy(main) && main.devices == map[]
  {
    FreshConserved(main.id);
  }

  lemma {:induction false} NoHolders(hs: seq<State>, d: nat)
    requires |hs| == 1 && hs[0].devices == map[]
    ensures HolderCount(hs, d) == 0
  {
    assert HolderCount(hs[1..], d) == 0;
  }

  // ---------------------------------------------------------------- byte totals

  /** The totals that decide who gets a file are what the hashers still have to read. */
  ghost predicate TotalsRight(hs: seq<State>) {
    forall i :: 0 <= i < |hs| ==> Off(hs[i]) == 0
  }

  /** The step that keeps the total: no stop with bytes to read in flight, no file that ends with more or
      less read than it had, no read with nothing left in the total. */
  predicate KeepsTotal(s: State, step: Step)
    requires Can(s, step)
  {
    match step
    case Stop => s.FlightBytes() == 0
    case Shutdown => s.FlightBytes() == 0
    case EndFile => s.place.left == 0
    case Read(_) => s.bytesLeft > 0
    case _ => true
  }

  lemma {:induction false} TotalExactly(s: State, step: Step)
    requires Can(s, step) && Off(s) == 0
    ensures Off(Next(s, step)) == 0 <==> KeepsTotal(s, step)
  {
    StepOff(s, step);
    hide Off, Next;
  }

  lemma {:induction false} FreshTotal(id: nat)
    ensures Off(Fresh(id)) == 0
  {}

  lemma {:induction false} AddTotals(hs: seq<State>, item: Item, cfg: Limits)
    requires TotalsRight(hs) && Possible(hs, Add(item))
    ensures TotalsRight(AddFile(hs, item, cfg))
  {
    var i, id := AddCases(hs, item, cfg);
    FreshTotal(id);
    TotalExactly(Fresh(id), Enqueue(item));
    TotalExactly(hs[i], Enqueue(item));
    hide Next, Off, AddFile, Can;
  }

  /** The events after which all totals are still right. */
  predicate KeepsTotals(hs: seq<State>, e: Event)
    requires Possible(hs, e)
  {
    match e
    case Add(_) => true
    case Work(i, step) => KeepsTotal(hs[i], step)
    case All(step) => forall i :: 0 <= i < |hs| ==> KeepsTotal(hs[i], step)
  }

  lemma {:induction false} AllTotals(hs: seq<State>, step: Step)
    requires Possible(hs, All(step)) && TotalsRight(hs)
    ensures forall i :: 0 <= i < |hs| ==> (Off(StepFirst(hs, |hs|, step)[i]) == 0 <==> KeepsTotal(hs[i], step))
  {
    SteppedFirst(hs, |hs|, step);
    hide Next, Off, Can, KeepsTotal, StepFirst;
    forall i | 0 <= i < |hs| ensures Off(Next(hs[i], step)) == 0 <==> KeepsTotal(hs[i], step) {
      TotalExactly(hs[i], step);
    }
  }

  lemma {:induction false} LeavesTotal(s: State, step: Step)
    requires Can(s, step) && Next(s, step).place == Gone && !step.Stop? && !step.Shutdown?
    ensures KeepsTotal(s, step)
  {}

  lemma {:induction false} WorkTotals(hs: seq<State>, i: nat, step: Step, cfg: Limits)
    requires TotalsRight(hs) && Possible(hs, Work(i, step))
    ensures TotalsRight(After(hs, Work(i, step), cfg)) <==> KeepsTotal(hs[i], step)
  {
    var t := Next(hs[i], step);
    TotalExactly(hs[i], step);
    if t.place == Gone {
      LeavesTotal(hs[i], step);
      WithoutIdSublist(hs, t.id, 0);
    } else {
      assert hs[i := t][i] == t;
    }
    hide Next, Off, Can, KeepsTotal, WithoutId;
  }

  /** After an event the totals are right exactly if it keeps them. */
  lemma {:induction false} EventTotalsExactly(hs: seq<State>, e: Event, cfg: Limits)
    requires TotalsRight(hs) && Possible(hs, e)
    ensures TotalsRight(After(hs, e, cfg)) <==> KeepsTotals(hs, e)
  {
    match e
    case Add(item) => AddTotals(hs, item, cfg);
    case Work(i, step) => WorkTotals(hs, i, step, cfg);
    case All(step) =>
      AllTotals(hs, step);
      hide Next, Off, Can, KeepsTotal, StepFirst;
  }

  ghost predicate TotalsAlwaysRight(hs: seq<State>, events: seq<Event>, cfg: Limits)
    requires IsRun(hs, events, cfg)
    decreases |events|
  {
    TotalsRight(hs) && (events != [] ==> TotalsAlwaysRight(After(hs, events[0], cfg), events[1..], cfg))
  }

  predicate AlwaysKept(hs: seq<State>, events: seq<Event>, cfg: Limits)
    requires IsRun(hs, events, cfg)
    decreases |events|
  {
    events != [] ==> KeepsTotals(hs, events[0]) && AlwaysKept(After(hs, events[0], cfg), events[1..], cfg)
  }

  /** In every run, stops included, the totals of all listed hashers are right at every moment exactly if
      all its events keep them. */
  lemma {:induction false} RunTotalsExactly(hs: seq<State>, events: seq<Event>, cfg: Limits)
    requires TotalsRight(hs) && IsRun(hs, events, cfg)
    ensures TotalsAlwaysRight(hs, events, cfg) <==> AlwaysKept(hs, events, cfg)
    decreases |events|
  {
    hide TotalsRight, After, Possible, KeepsTotals;
    if events != [] {
      EventTotalsExactly(hs, events[0], cfg);
      if TotalsRight(After(hs, events[0], cfg)) { RunTotalsExactly(After(hs, events[0], cfg), events[1..], cfg); }
    }
  }
}
