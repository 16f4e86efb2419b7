/** The manager object (hash/HashManager.cpp): its list of hashers and the loops that search it.
    Every method does to the hashers' states what HashScheduling says. */
module HashManagement {
  import opened HasherQueue
  import opened HasherWorker
  import opened HashScheduling
  import opened Options
  import opened Ordering

  class HashManager {
    var hashers: seq<Hasher>
    var isShutdown: bool
    const limits: Limits

    ghost predicate Valid()
      reads this, hashers
    {
      && (forall i, j :: 0 <= i < j < |hashers| ==> hashers[i] != hashers[j])
      && (forall i :: 0 <= i < |hashers| ==> HasherQueue.Sorted(hashers[i].w))
    }

    function Views(): (r: seq<State>)
      reads this, hashers
      ensures |r| == |hashers| && forall i :: 0 <= i < |hashers| ==> r[i] == hashers[i].View()
    {
      seq(|hashers|, i requires 0 <= i < |hashers| reads this, hashers => hashers[i].View())
    }

    constructor (limits: Limits)
      ensures Valid() && Views() == [Fresh(0)] && !isShutdown && this.limits == limits && fresh(hashers)
    {
      var main := new Hasher(0);
      this.limits, isShutdown := limits, false;
      hashers := [main];
      new;
      assert Views() == [Fresh(0)];
    }

    method PathQueued(path: string) returns (queued: bool)
      requires Valid()
      ensures queued <==> IsPathQueued(Views(), path)
    {
      for i := 0 to |hashers|
        invariant forall k :: 0 <= k < i ==> !HasPath(hashers[k].w, path)
      {
        var _, found := GetPos(hashers[i].w, path);
        if found {
          assert HasPath(Views()[i].w, path);
          return true;
        }
      }
      queued := false;
    }

    /** The hashers that hold the device, in list order. */
    method VolumeHashers(d: nat) returns (vol: seq<nat>)
      ensures vol == Holders(Views(), d, |hashers|)
    {
      vol := [];
      for i := 0 to |hashers|
        invariant vol == Holders(Views(), d, i)
      {
        if d in hashers[i].devices {
          vol := vol + [i];
        }
      }
    }

    method GetLeastLoaded(among: seq<nat>) returns (least: nat)
      requires among != [] && forall k :: 0 <= k < |among| ==> among[k] < |hashers|
      ensures least == LeastLoaded(Views(), among, |among|)
    {
      least := among[0];
      for n := 1 to |among|
        invariant least == LeastLoaded(Views(), among, n)
      {
        if hashers[among[n]].totalBytesLeft < hashers[least].totalBytesLeft {
          least := among[n];
        }
      }
    }

    method GetFileHasher(d: nat, size: nat) returns (r: Option<nat>)
      requires hashers != []
      ensures r == HashScheduling.GetFileHasher(Views(), d, size, limits)
    {
      hide Holders, LeastLoaded, Indices;
      r := None;
      var full := |hashers| >= limits.maxThreads;
      var vol := VolumeHashers(d);
      if vol == [] && full {
        var least := GetLeastLoaded(Indices(|hashers|));
        r := Some(least);
      } else if vol != [] {
        var least := GetLeastLoaded(vol);
        var volumeFull := |vol| >= limits.perVolume && limits.perVolume > 0;
        var reuse := size <= 10 * MB && hashers[least].totalBytesLeft <= 200 * MB;
        if full || volumeFull || reuse {
          r := Some(least);
        }
      }
    }

    method CreateHasher() returns (h: Hasher)
      requires Valid()
      modifies this`hashers
      ensures fresh(h) && hashers == old(hashers) + [h] && h.View() == Fresh(FreeId(Ids(old(Views())), 0))
    {
      ghost var ids := Ids(Views());
      hide Views, Ids;
      var id := 0;
      while id < |hashers| && hashers[id].hasherID == id
        invariant 0 <= id <= |hashers| && FreeId(ids, id) == FreeId(ids, 0)
      {
        id := id + 1;
      }
      h := new Hasher(id);
      hashers := hashers + [h];
    }

    /** The main hasher if it is alone and idle, else what the limits say. */
    method ChooseHasher(item: Item) returns (r: Option<nat>)
      requires hashers != []
      ensures r == Target(Views(), item, limits)
    {
      hide HashScheduling.GetFileHasher;
      if |hashers| == 1 && hashers[0].devices == map[] {
        r := Some(0);
      } else {
        r := GetFileHasher(item.device, item.size);
      }
    }

    method HashFile(item: Item) returns (added: bool)
      requires Valid() && (!isShutdown ==> Possible(Views(), Add(item)))
      modifies this`hashers, hashers
      ensures Valid() && Views() == if isShutdown then old(Views()) else AddFile(old(Views()), item, limits)
      ensures added <==> !isShutdown && !IsPathQueued(old(Views()), item.path)
    {
      hide IsPathQueued, Target, Next, FreeId, Ids;
      if isShutdown {
        return false;
      }
      var queued := PathQueued(item.path);
      if queued {
        return false;
      }
      var target := ChooseHasher(item);
      match target
      case Some(i) =>
        added := QueueOn(i, item);
      case None =>
        added := QueueOnNew(item);
    }

    method QueueOnNew(item: Item) returns (added: bool)
      requires Valid()
      modifies this`hashers, hashers
      ensures Valid() && added
      ensures Views() == old(Views()) + [Next(Fresh(FreeId(Ids(old(Views())), 0)), Enqueue(item))]
    {
      ghost var before := Views();
      hide Insert, HasPath, Sorted, Position, Views, FreeId, Ids;
      var h := CreateHasher();
      ghost var created := h.View();
      FreshSorted();
      added := h.HashFile(item);
      SortedStays(created, item);
      assert Views() == before + [h.View()];
    }

    method QueueOn(i: nat, item: Item) returns (added: bool)
      requires Valid() && i < |hashers| && Can(hashers[i].View(), Enqueue(item))
      requires !IsPathQueued(Views(), item.path)
      modifies hashers[i]
      ensures Valid() && Views() == old(Views())[i := Next(old(Views())[i], Enqueue(item))] && added
    {
      hide Insert, Position, Sorted;
      ghost var before := hashers[i].View();
      assert !HasPath(Views()[i].w, item.path);
      added := hashers[i].HashFile(item);
      SortedStays(before, item);
    }

    /** erase_if by id. */
    method RemoveHasher(id: nat)
      requires Valid()
      modifies this`hashers
      ensures Valid() && Views() == WithoutId(old(Views()), id)
    {
      ghost var views;
      var kept;
      kept, views := OtherHashers(id);
      hide WithoutId, Sorted, Views, Hasher.View;
      hashers := kept;
      assert forall k :: 0 <= k < |hashers| ==> Views()[k] == hashers[k].View() == views[k];
      SortedAgain();
    }

    method OtherHashers(id: nat) returns (kept: seq<Hasher>, ghost views: seq<State>)
      requires Valid()
      ensures views == WithoutId(Views(), id) && forall k :: 0 <= k < |views| ==> Sorted(views[k].w)
      ensures |views| == |kept| && forall k :: 0 <= k < |kept| ==> views[k] == kept[k].View()
      ensures forall k, m :: 0 <= k < m < |kept| ==> kept[k] != kept[m]
    {
      kept, views := [], [];
      ghost var all := Views();
      assert all[..0] == [] && WithoutId([], id) == [];
      hide Sorted, WithoutId, Part, Views;
      NoPart(hashers);
      for i := 0 to |hashers|
        invariant Part(hashers, i, kept) && views == WithoutId(all[..i], id)
        invariant forall k :: 0 <= k < |views| ==> Sorted(views[k].w)
        invariant |views| == |kept| && forall k :: 0 <= k < |kept| ==> views[k] == kept[k].View()
      {
        WithoutIdUpTo(all, i, id);
        PartStep(hashers, i, kept);
        if hashers[i].hasherID != id {
          kept, views := kept + [hashers[i]], views + [all[i]];
        }
      }
      assert all[..|hashers|] == all;
      PartIs(hashers, |hashers|, kept);
    }

    /** Distinct hashers whose queues are in order. */
    lemma SortedAgain()
      requires forall i, j :: 0 <= i < j < |hashers| ==> hashers[i] != hashers[j]
      requires forall k :: 0 <= k < |hashers| ==> Sorted(Views()[k].w)
      ensures Valid()
    {
      hide Sorted, Views;
      assert forall k :: 0 <= k < |hashers| ==> Views()[k] == hashers[k].View();
    }

    /** Every hasher drops the items under a directory. */
    method StopHashing(under: Item -> bool)
      requires Valid() && Possible(Views(), All(Step.StopHashing(under)))
      modifies hashers
      ensures Valid() && Views() == StepFirst(old(Views()), |old(Views())|, Step.StopHashing(under))
    {
      ghost var before := Views();
      hide Views, Next, Can, Sorted, StepFirst;
      for i := 0 to |hashers|
        invariant hashers == old(hashers)
        invariant forall k :: 0 <= k < i ==> hashers[k].View() == Next(before[k], Step.StopHashing(under))
        invariant forall k :: i <= k < |hashers| ==> hashers[k].View() == before[k]
      {
        hashers[i].StopHashing(under);
      }
      AllStepped(before, Views(), Step.StopHashing(under));
      SortedAgain();
    }

    /** Every hasher drops everything. */
    method Stop()
      requires Valid() && Possible(Views(), All(Step.Stop))
      modifies hashers
      ensures Valid() && Views() == StepFirst(old(Views()), |old(Views())|, Step.Stop)
    {
      ghost var before := Views();
      hide Views, Next, Can, Sorted, StepFirst;
      for i := 0 to |hashers|
        invariant hashers == old(hashers)
        invariant forall k :: 0 <= k < i ==> hashers[k].View() == Next(before[k], Step.Stop)
        invariant forall k :: i <= k < |hashers| ==> hashers[k].View() == before[k]
      {
        hashers[i].Stop();
      }
      AllStepped(before, Views(), Step.Stop);
      SortedAgain();
    }

    /** Every hasher ends for good. */
    method ShutdownHashers()
      requires Valid() && Possible(Views(), All(Step.Shutdown))
      modifies hashers
      ensures Valid() && Views() == StepFirst(old(Views()), |old(Views())|, Step.Shutdown)
    {
      ghost var before := Views();
      hide Views, Next, Can, Sorted, StepFirst;
      for i := 0 to |hashers|
        invariant hashers == old(hashers)
        invariant forall k :: 0 <= k < i ==> hashers[k].View() == Next(before[k], Step.Shutdown)
        invariant forall k :: i <= k < |hashers| ==> hashers[k].View() == before[k]
      {
        hashers[i].Shutdown();
      }
      AllStepped(before, Views(), Step.Shutdown);
      SortedAgain();
    }

    method Shutdown()
      requires Valid() && Possible(Views(), All(Step.Shutdown))
      modifies this`isShutdown, hashers
      ensures Valid() && isShutdown && Views() == StepFirst(old(Views()), |old(Views())|, Step.Shutdown)
    {
      hide StepFirst, Next, Can, Sorted;
      ghost var before := Views();
      isShutdown := true;
      assert Views() == before;
      ShutdownHashers();
    }
  }

  /** Different ones of the first i. */
  ghost predicate Part(all: seq<Hasher>, i: nat, kept: seq<Hasher>)
    requires i <= |all|
  {
    (forall k :: 0 <= k < |kept| ==> kept[k] in all[..i]) && forall k, m :: 0 <= k < m < |kept| ==> kept[k] != kept[m]
  }

  lemma {:induction false} NoPart(all: seq<Hasher>)
    ensures Part(all, 0, [])
  {}

  lemma {:induction false} PartIs(all: seq<Hasher>, i: nat, kept: seq<Hasher>)
    requires i <= |all| && Part(all, i, kept)
    ensures forall k :: 0 <= k < |kept| ==> kept[k] in all
    ensures forall k, m :: 0 <= k < m < |kept| ==> kept[k] != kept[m]
  {}

  lemma {:induction false} PartStep(all: seq<Hasher>, i: nat, kept: seq<Hasher>)
    requires i < |all| && Part(all, i, kept) && forall k, m :: 0 <= k < m < |all| ==> all[k] != all[m]
    ensures Part(all, i + 1, kept) && Part(all, i + 1, kept + [all[i]])
  {
    assert all[..i + 1] == all[..i] + [all[i]];
  }

  /** Every hasher did the step: the list is that of the step on all, with the queues still in order. */
  lemma {:induction false} AllStepped(hs: seq<State>, r: seq<State>, step: Step)
    requires Possible(hs, All(step)) && |r| == |hs|
    requires forall k :: 0 <= k < |hs| ==> Sorted(hs[k].w) && r[k] == Next(hs[k], step)
    ensures r == StepFirst(hs, |hs|, step) && forall k :: 0 <= k < |r| ==> Sorted(r[k].w)
  {
    SteppedFirst(hs, |hs|, step);
    forall k | 0 <= k < |r| ensures Sorted(r[k].w) { StepSorted(hs[k], step); }
    hide Next, Can, Sorted;
  }

  lemma {:induction false} StepSorted(s: State, step: Step)
    requires Sorted(s.w) && Can(s, step) && (step.StopHashing? || step.Stop? || step.Shutdown?)
    ensures Sorted(Next(s, step).w)
  {
    if step.StopHashing? { PurgeSorted(s, step.under); }
  }

  lemma {:induction false} FreshSorted()
    ensures Sorted([]) && forall path :: !HasPath([], path)
  {}

  lemma {:induction false} SortedStays(s: State, item: Item)
    requires Sorted(s.w) && Can(s, Enqueue(item))
    ensures Sorted(Next(s, Enqueue(item)).w)
  {
    InsertSorted(s.w, item);
  }

  lemma {:induction false} PurgeSorted(s: State, under: Item -> bool)
    requires Sorted(s.w) && Can(s, Step.StopHashing(under))
    ensures Sorted(Next(s, Step.StopHashing(under)).w)
  {
    PurgeLeaves(s, 0, under);
    assert s.w[0..] == s.w && s.w[..0] == [];
    WithoutSorted(s.w, under);
  }

  lemma {:induction false} WithoutIdSnoc(hs: seq<State>, s: State, id: nat)
    ensures WithoutId(hs + [s], id) == WithoutId(hs, id) + (if s.id == id then [] else [s])
  {
    if hs == [] {
      assert hs + [s] == [s] && [s][1..] == [];
    } else {
      var head, last := if hs[0].id == id then [] else [hs[0]], if s.id == id then [] else [s];
      WithoutIdSnoc(hs[1..], s, id);
      assert (hs + [s])[1..] == hs[1..] + [s];
      Regrouped(head, WithoutId(hs[1..], id), last);
    }
  }

  lemma {:induction false} WithoutIdUpTo(hs: seq<State>, i: nat, id: nat)
    requires i < |hs|
    ensures WithoutId(hs[..i + 1], id) == WithoutId(hs[..i], id) + (if hs[i].id == id then [] else [hs[i]])
  {
    assert hs[..i + 1] == hs[..i] + [hs[i]];
    hide WithoutId;
    WithoutIdSnoc(hs[..i], hs[i], id);
  }

  lemma {:induction false} Regrouped(a: seq<State>, b: seq<State>, c: seq<State>)
    ensures a + (b + c) == (a + b) + c
  {}
}
