/** Which hasher a file goes to (hash/HashManager.cpp, hashFile), told by what the listed hashers hold. */
module HashChoice {
  import opened HashScheduling
  import opened HasherQueue
  import opened HasherWorker
  import opened Options

  ghost predicate Holds(s: State, d: nat) { d in s.devices }

  ghost predicate AllBusy(hs: seq<State>, d: nat) {
    forall i :: 0 <= i < |hs| && Holds(hs[i], d) ==> hs[i].bytesLeft > 200 * 1024 * 1024
  }

  ghost predicate NoHolder(hs: seq<State>, d: nat) {
    forall i :: 0 <= i < |hs| ==> !Holds(hs[i], d)
  }

  ghost predicate SingleIdle(hs: seq<State>) {
    |hs| == 1 && hs[0].devices == map[]
  }

  /** A new hasher is created: not for the idle main hasher, and not beyond the number of threads; for a
      volume that no hasher holds, or one that may have more, when the file is large or all its hashers
      have a lot to do. */
  ghost predicate Grows(hs: seq<State>, item: Item, cfg: Limits) {
    && !SingleIdle(hs) && |hs| < cfg.maxThreads
    && (NoHolder(hs, item.device) ||
        ((cfg.perVolume == 0 || HolderCount(hs, item.device) < cfg.perVolume) &&
         (item.size > 10 * 1024 * 1024 || AllBusy(hs, item.device))))
  }

  /** The i-th hasher is one of those the file may go to: a holder of the volume, if there is one. */
  ghost predicate Eligible(hs: seq<State>, d: nat, i: nat)
    requires i < |hs|
  {
    Holds(hs[i], d) || NoHolder(hs, d)
  }

  /** Of these it has the least bytes left, and is the first that has. */
  ghost predicate FirstLeast(hs: seq<State>, d: nat, i: nat)
    requires i < |hs|
  {
    && Eligible(hs, d, i)
    && forall j :: 0 <= j < |hs| && Eligible(hs, d, j) ==>
         hs[i].bytesLeft <= hs[j].bytesLeft && (j < i ==> hs[i].bytesLeft < hs[j].bytesLeft)
  }

  /** The file is added to the queue and to the counts; nothing else changes. */
  ghost predicate Takes(s: State, t: State, item: Item) {
    && t == s.(w := t.w, devices := t.devices, bytesLeft := s.bytesLeft + item.size, signals := s.signals + 1)
    && multiset(t.w) == multiset(s.w) + multiset{item}
    && forall d :: Of(t.devices, d) == Of(s.devices, d) + if d == item.device then 1 else 0
  }

  function Of(m: Devices, d: nat): int { if d in m then m[d] else 0 }

  lemma {:induction false} HoldersExactly(hs: seq<State>, d: nat, n: nat, i: nat)
    requires n <= |hs|
    ensures i in Holders(hs, d, n) <==> i < n && Holds(hs[i], d)
  {
    if n > 0 { HoldersExactly(hs, d, n - 1, i); }
  }

  lemma {:induction false} HoldersRise(hs: seq<State>, d: nat, n: nat)
    requires n <= |hs|
    ensures Rising(Holders(hs, d, n))
  {
    if n > 0 { HoldersRise(hs, d, n - 1); }
  }

  ghost predicate Rising(s: seq<nat>) {
    forall a, b :: 0 <= a < b < |s| ==> s[a] < s[b]
  }

  lemma {:induction false} LeastIsFirst(hs: seq<State>, among: seq<nat>, n: nat)
    requires 1 <= n <= |among| && (forall k :: 0 <= k < |among| ==> among[k] < |hs|) && Rising(among)
    ensures forall k :: 0 <= k < n && among[k] < LeastLoaded(hs, among, n) ==>
      hs[LeastLoaded(hs, among, n)].bytesLeft < hs[among[k]].bytesLeft
  {
    if n > 1 { LeastIsFirst(hs, among, n - 1); }
  }

  /** The least loaded of a list of all eligible hashers. */
  lemma {:induction false} LeastOfEligible(hs: seq<State>, d: nat, among: seq<nat>)
    requires among != [] && Rising(among) && forall k :: 0 <= k < |among| ==> among[k] < |hs|
    requires forall i :: 0 <= i < |hs| ==> (i in among <==> Eligible(hs, d, i))
    ensures FirstLeast(hs, d, LeastLoaded(hs, among, |among|))
  {
    LeastIsFirst(hs, among, |among|);
    var r := LeastLoaded(hs, among, |among|);
    hide Eligible, LeastLoaded, Rising;
    assert r in among;
    forall j | 0 <= j < |hs| && Eligible(hs, d, j)
      ensures hs[r].bytesLeft <= hs[j].bytesLeft && (j < r ==> hs[r].bytesLeft < hs[j].bytesLeft)
    {
      var k :| 0 <= k < |among| && among[k] == j;
    }
  }

  lemma {:induction false} IndicesAll(n: nat)
    ensures Rising(Indices(n)) && forall i :: i in Indices(n) <==> 0 <= i < n
  {
    forall i | 0 <= i < n ensures i in Indices(n) { assert Indices(n)[i] == i; }
  }

  lemma {:induction false} HoldersOf(hs: seq<State>, d: nat)
    ensures var vol := Holders(hs, d, |hs|);
      && |vol| == HolderCount(hs, d) && Rising(vol) && (vol == [] <==> NoHolder(hs, d))
      && forall i :: 0 <= i < |hs| ==> (i in vol <==> Holds(hs[i], d))
  {
    hide Holders, HolderCount, Rising, Holds;
    var vol := Holders(hs, d, |hs|);
    HoldersCounted(hs, d, |hs|);
    assert hs[..|hs|] == hs;
    HoldersRise(hs, d, |hs|);
    forall i | 0 <= i < |hs| ensures i in vol <==> Holds(hs[i], d) { HoldersExactly(hs, d, |hs|, i); }
    if vol != [] { assert vol[0] in vol; }
  }

  /** The least loaded of all, for a volume that no hasher holds. */
  lemma {:induction false} LeastOfAll(hs: seq<State>, d: nat)
    requires hs != [] && NoHolder(hs, d)
    ensures FirstLeast(hs, d, LeastLoaded(hs, Indices(|hs|), |hs|))
  {
    IndicesAll(|hs|);
    hide Indices, Rising, NoHolder, LeastLoaded;
    LeastOfEligible(hs, d, Indices(|hs|));
  }

  /** The least loaded holder of the volume. */
  lemma {:induction false} LeastHolder(hs: seq<State>, d: nat)
    requires !NoHolder(hs, d)
    ensures var vol := Holders(hs, d, |hs|);
      && vol != []
      && var least := LeastLoaded(hs, vol, |vol|);
      FirstLeast(hs, d, least) && (hs[least].bytesLeft > 200 * MB <==> AllBusy(hs, d))
  {
    HoldersOf(hs, d);
    hide Holders, Rising, Holds, LeastLoaded, NoHolder;
    var vol := Holders(hs, d, |hs|);
    LeastOfEligible(hs, d, vol);
    assert LeastLoaded(hs, vol, |vol|) in vol;
  }

  lemma {:induction false} OnlyOne(hs: seq<State>, d: nat)
    requires SingleIdle(hs)
    ensures FirstLeast(hs, d, 0)
  {}

  lemma {:induction false} TargetExactly(hs: seq<State>, item: Item, cfg: Limits)
    requires hs != []
    ensures var r := Target(hs, item, cfg);
      if Grows(hs, item, cfg) then r.None? else r.Some? && FirstLeast(hs, item.device, r.value)
  {
    hide Rising, Holders, LeastLoaded, HolderCount, Indices, NoHolder, AllBusy, FirstLeast, Holds;
    if SingleIdle(hs) {
      OnlyOne(hs, item.device);
    } else {
      HoldersOf(hs, item.device);
      if NoHolder(hs, item.device) { LeastOfAll(hs, item.device); } else { LeastHolder(hs, item.device); }
    }
  }

  lemma {:induction false} EnqueueTakes(s: State, item: Item)
    requires Can(s, Enqueue(item)) && !HasPath(s.w, item.path)
    ensures Takes(s, Next(s, Enqueue(item)), item)
  {
    InsertItems(s.w, item);
    hide Insert, HasPath;
  }

  lemma {:induction false} InsertItems(w: seq<Item>, item: Item)
    ensures multiset(Insert(w, item)) == multiset(w) + multiset{item}
  {
    var p := Position(w, item.path);
    assert w == w[..p] + w[p..];
  }

  /** hashFile for a path that is not queued: either the list grows by a hasher with this file alone, or
      the file goes to the first with the least bytes left among the holders of its volume, or among all
      if there is none. */
  lemma {:induction false} FileGoes(hs: seq<State>, item: Item, cfg: Limits) returns (i: nat)
    requires Possible(hs, Add(item)) && !IsPathQueued(hs, item.path)
    ensures var r := AddFile(hs, item, cfg);
      if Grows(hs, item, cfg) then
        && |r| == |hs| + 1 && r[..|hs|] == hs && Takes(Fresh(r[|hs|].id), r[|hs|], item)
      else
        && i < |hs| && |r| == |hs| && FirstLeast(hs, item.device, i)
        && Takes(hs[i], r[i], item) && forall j :: 0 <= j < |hs| && j != i ==> r[j] == hs[j]
  {
    TargetExactly(hs, item, cfg);
    hide Grows, FirstLeast, Target, Takes, FreeId, Ids;
    i := 0;
    match Target(hs, item, cfg)
    case Some(k) =>
      i := k;
      assert !HasPath(hs[i].w, item.path);
      EnqueueTakes(hs[i], item);
      hide Next;
    case None =>
      var id := FreeId(Ids(hs), 0);
      EnqueueTakes(Fresh(id), item);
      assert Next(Fresh(id), Enqueue(item)).id == id;
      hide Next;
  }
}
