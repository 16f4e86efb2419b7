/** Runs in which items for small files are used as well (connection/ConnectionManager.cpp): when a user
    has two waiting items for other files, and when two items for small files. */
module SmallSlots {

  import opened ConnectionQueue
  import opened ConnectionRuns

  /** As in runs with normal slots, but small slots may be asked for and found.  The kind of an item is
      only looked at again before a connection attempt, so while it is not active. */
  ghost predicate Allowed(s: State, e: Event, supports: set<nat>) {
    match e
    case GetDownload(_, _) => true
    case Retype(token, _, _) => WithToken(s.items, token) < |s.items| ==>
      s.items[WithToken(s.items, token)].state != ACTIVE
    case _ => Possible(s, e, supports)
  }

  predicate Consistent(i: Item, supports: set<nat>) {
    && (i.running ==> i.state == ACTIVE) && (i.mcn && i.state == ACTIVE ==> i.kind != ANY)
    && if i.user in supports then i.state == ACTIVE ==> i.mcn else !i.mcn
  }

  ghost predicate Steady(items: seq<Item>, supports: set<nat>) {
    && (forall i :: 0 <= i < |items| ==> Consistent(items[i], supports))
    && forall i, j :: 0 <= i < j < |items| && items[i].user == items[j].user ==> items[i].user in supports
  }

  predicate Waits(i: Item, user: nat) {
    i.user == user && i.kind != SMALL && i.state != ACTIVE
  }

  /** At most one item of the user waits for anything but small files. */
  ghost predicate OneWaits(items: seq<Item>, user: nat) {
    forall i, j :: 0 <= i < j < |items| ==> !Waits(items[i], user) || !Waits(items[j], user)
  }

  ghost predicate SomeWaits(items: seq<Item>, user: nat) {
    exists i :: 0 <= i < |items| && Waits(items[i], user)
  }

  // ---------------------------------------------------------------- changes to the list

  lemma {:induction false} UpdateSteady(items: seq<Item>, k: nat, x: Item, supports: set<nat>, user: nat)
    requires Steady(items, supports) && k < |items| && x.user == items[k].user && Consistent(x, supports)
    ensures Steady(items[k := x], supports)
  {
    var all := items[k := x];
    hide Consistent;
    forall i | 0 <= i < |all| ensures Consistent(all[i], supports) {}
    forall i, j | 0 <= i < j < |all| && all[i].user == all[j].user ensures all[i].user in supports {
      assert items[i].user == items[j].user;
    }
  }

  lemma {:induction false} UpdateWaits(items: seq<Item>, k: nat, x: Item, user: nat)
    requires k < |items| && OneWaits(items, user)
    requires Waits(x, user) ==> Waits(items[k], user) || forall i :: 0 <= i < |items| && i != k ==>
      !Waits(items[i], user)
    ensures OneWaits(items[k := x], user)
  {
    hide Waits;
  }

  lemma {:induction false} WithoutSteady(items: seq<Item>, k: nat, supports: set<nat>, user: nat)
    requires Steady(items, supports) && k < |items| && OneWaits(items, user)
    ensures Steady(Without(items, k), supports) && OneWaits(Without(items, k), user)
  {
    var r := Without(items, k);
    hide Consistent, Waits;
    forall i | 0 <= i < |r| ensures r[i] == items[if i < k then i else i + 1] {}
    forall i, j | 0 <= i < j < |r| && r[i].user == r[j].user ensures r[i].user in supports {
      assert items[if i < k then i else i + 1].user == items[if j < k then j else j + 1].user;
    }
  }

  /** After removeExtraMCNUnsafe for an active normal item, nothing else of the user waits. */
  lemma {:induction false} TrimSteady(items: seq<Item>, k: nat, supports: set<nat>, user: nat)
    requires Steady(items, supports) && k < |items| && OneWaits(items, user)
    ensures var t := Trim(items, k); Steady(t.0, supports) && OneWaits(t.0, user)
    ensures var t := Trim(items, k);
      items[k].mcn && items[k].kind == MCN_NORMAL && items[k].user == user ==>
        forall i :: 0 <= i < |t.0| && i != t.1 ==> !Waits(t.0[i], user)
  {
    var t, j := Trim(items, k), FirstExtra(items, k, 0);
    hide FirstExtra, Consistent;
    if items[k].mcn && items[k].kind == MCN_NORMAL {
      if j < |items| {
        WithoutSteady(items, j, supports, user);
        if items[k].user == user {
          forall i | 0 <= i < |t.0| && i != t.1 ensures !Waits(t.0[i], user) {
            var m := if i < j then i else i + 1;
            assert t.0[i] == items[m] && m != j && Waits(items[j], user);
          }
        }
      } else if items[k].user == user {
        forall i | 0 <= i < |items| && i != k ensures !Waits(items[i], user) { assert !Extra(items, k, i); }
      }
    }
  }

  lemma {:induction false} FailedSteady(items: seq<Item>, token: nat, supports: set<nat>, user: nat)
    requires Steady(items, supports) && OneWaits(items, user)
    ensures Steady(Failed(items, token), supports) && OneWaits(Failed(items, token), user)
  {
    var k := WithToken(items, token);
    hide WithToken, Trim;
    if k < |items| {
      var t, x := Trim(items, k), items[k].(state := WAITING, running := false);
      TrimSteady(items, k, supports, user);
      assert Consistent(items[k], supports);
      assert Consistent(t.0[t.1], supports);
      UpdateSteady(t.0, t.1, x, supports, user);
      if Waits(x, user) && !Waits(items[k], user) && !items[k].mcn {
        assert user !in supports;
        forall i | 0 <= i < |t.0| && i != t.1 ensures !Waits(t.0[i], user) {
          assert t.0[if i < t.1 then i else t.1].user == t.0[if i < t.1 then t.1 else i].user ==> user in supports;
        }
      }
      UpdateWaits(t.0, t.1, x, user);
    }
  }

  lemma {:induction false} ConsistentAt(items: seq<Item>, k: nat, supports: set<nat>)
    requires Steady(items, supports) && k < |items|
    ensures Consistent(items[k], supports)
  {
    hide Consistent;
  }

  /** Replacing an item by one that waits no more than it did. */
  lemma {:induction false} ReplaceSteady(items: seq<Item>, k: nat, x: Item, supports: set<nat>, user: nat)
    requires Steady(items, supports) && OneWaits(items, user) && k < |items|
    requires x.user == items[k].user && Consistent(x, supports) && (Waits(x, user) ==> Waits(items[k], user))
    ensures Steady(items[k := x], supports) && OneWaits(items[k := x], user)
  {
    hide Steady, OneWaits, Consistent, Waits;
    UpdateSteady(items, k, x, supports, user);
    UpdateWaits(items, k, x, user);
  }

  lemma {:induction false} RetypedSteady(items: seq<Item>, k: nat, hasDownload: bool, found: Kind, supports: set<nat>,
      user: nat)
    requires Steady(items, supports) && OneWaits(items, user) && k < |items| && items[k].state != ACTIVE
    ensures var r := items[k := Retyped(items, k, hasDownload, found)]; Steady(r, supports) && OneWaits(r, user)
  {
    var x := Retyped(items, k, hasDownload, found);
    ConsistentAt(items, k, supports);
    hide Steady;
    UpdateSteady(items, k, x, supports, user);
    UpdateWaits(items, k, x, user);
  }

  lemma {:induction false} IdledSteady(items: seq<Item>, c: Connection, supports: set<nat>, user: nat)
    requires Steady(items, supports) && OneWaits(items, user)
    ensures Steady(Idled(items, c), supports) && OneWaits(Idled(items, c), user)
  {
    var k := Find(items, c);
    hide Steady, OneWaits, Find, Trim;
    if k < |items| && items[k].running {
      var x := items[k].(running := false);
      ConsistentAt(items, k, supports);
      ReplaceSteady(items, k, x, supports, user);
      TrimSteady(items[k := x], k, supports, user);
    }
  }

  lemma {:induction false} BeforeSteady(s: State, e: Event, supports: set<nat>, user: nat)
    requires Steady(s.items, supports) && OneWaits(s.items, user) && Allowed(s, e, supports)
    ensures Steady(Before(s, e), supports) && OneWaits(Before(s, e), user)
  {
    var items := s.items;
    hide Steady, OneWaits, WithToken, OfUser, Trim, Retyped;
    match e
    case GetDownload(_, _) =>
    case Retype(token, hasDownload, found) =>
      var k := WithToken(items, token);
      if k < |items| { RetypedSteady(items, k, hasDownload, found, supports, user); }
    case Attempt(token, to) =>
      var k := WithToken(items, token);
      if k < |items| {
        ConsistentAt(items, k, supports);
        ReplaceSteady(items, k, items[k].(state := to), supports, user);
      }
    case Remove(token) =>
      var k := WithToken(items, token);
      if k < |items| { WithoutSteady(items, k, supports, user); }
    case Connect(c) =>
      var k := Find(items, c);
      if k < |items| {
        ConsistentAt(items, k, supports);
        ReplaceSteady(items, k, Activated(items[k], c.mcn), supports, user);
      }
    case SetRemote(token, limit) =>
      var k := WithToken(items, token);
      if k < |items| {
        ConsistentAt(items, k, supports);
        ReplaceSteady(items, k, items[k].(maxRemote := limit), supports, user);
      }
    case Run(c, _) =>
      var k := Find(items, c);
      if k < |items| {
        ConsistentAt(items, k, supports);
        ReplaceSteady(items, k, items[k].(running := true), supports, user);
      }
    case Idle(c) => IdledSteady(items, c, supports, user);
    case Fail(token, _) => FailedSteady(items, token, supports, user);
  }

  // ---------------------------------------------------------------- new items

  /** A new item for more than small files is allowed while an item waits that was one for small files
      and is now for any: its connection showed that the user supports several, and the scan takes it
      for one in use. */
  ghost predicate Overlooked(s: State, e: Event, user: nat, own: nat) {
    var items := AskedOf(s, e);
    && Asks(s, e, user) && AllowNew(items, user, false, own)
    && exists i :: 0 <= i < |items| && WaitsForAny(items[i], user)
  }

  predicate WaitsForAny(x: Item, user: nat) {
    x.user == user && x.mcn && x.kind == ANY && x.state != ACTIVE
  }

  lemma {:induction false} OpenWaits(items: seq<Item>, user: nat, supports: set<nat>, own: nat)
    requires Steady(items, supports) && AllowNew(items, user, false, own)
    ensures SomeWaits(items, user) <==> exists i :: 0 <= i < |items| && WaitsForAny(items[i], user)
    ensures user !in supports ==> forall i :: 0 <= i < |items| ==> items[i].user != user
  {
    AllowNewExactly(items, user, false, own);
    hide AllowNew;
    forall i | 0 <= i < |items| && items[i].user == user
      ensures user in supports && (Waits(items[i], user) ==> WaitsForAny(items[i], user))
    {
      assert Consistent(items[i], supports);
    }
    if i :| 0 <= i < |items| && WaitsForAny(items[i], user) {
      assert Waits(items[i], user);
    }
  }

  lemma {:induction false} PlusWaits(items: seq<Item>, x: Item, supports: set<nat>, user: nat)
    requires Steady(items, supports) && OneWaits(items, user) && x.state != ACTIVE && !x.running
    requires x.user !in supports ==> !x.mcn && forall i :: 0 <= i < |items| ==> items[i].user != x.user
    ensures Steady(items + [x], supports)
    ensures OneWaits(items + [x], user) <==> !(Waits(x, user) && SomeWaits(items, user))
  {
    var all := items + [x];
    if i :| 0 <= i < |items| && Waits(items[i], user) { assert all[i] == items[i]; }
    hide Waits;
    assert all[|items|] == x;
    forall i | 0 <= i < |all| ensures Consistent(all[i], supports) {}
    forall i, j | 0 <= i < j < |all| && all[i].user == all[j].user ensures all[i].user in supports {
      if j < |items| { assert items[i].user == items[j].user; } else { assert items[i].user == x.user; }
    }
  }

  lemma {:induction false} SmallOpen(items: seq<Item>, user: nat, supports: set<nat>, own: nat)
    requires Steady(items, supports) && AllowNew(items, user, true, own)
    ensures user !in supports ==> forall i :: 0 <= i < |items| ==> items[i].user != user
  {
    AllowNewExactly(items, user, true, own);
    hide AllowNew;
    forall i | 0 <= i < |items| && items[i].user == user ensures user in supports
    {
      assert Consistent(items[i], supports);
    }
  }

  /** A failing item for small files is none that waits for others. */
  lemma {:induction false} FailedWaits(s: State, e: Event, user: nat)
    requires e.Fail? && Asks(s, e, user)
    ensures SomeWaits(Before(s, e), user) <==> SomeWaits(s.items, user)
  {
    var items, k := s.items, WithToken(s.items, e.token);
    var r, x := Before(s, e), items[k].(state := WAITING, running := false);
    hide WithToken;
    assert r == items[k := x];
    if i :| 0 <= i < |items| && Waits(items[i], user) { assert r[i] == items[i]; }
    if i :| 0 <= i < |items| && Waits(r[i], user) { assert i != k && r[i] == items[i]; }
  }

  lemma {:induction false} AskedSteady(s: State, e: Event, supports: set<nat>, user: nat)
    requires Steady(s.items, supports) && OneWaits(s.items, user) && Allowed(s, e, supports)
    ensures Steady(AskedOf(s, e), supports)
  {
    hide Steady, OneWaits, Find;
    if e.Run? { BeforeSteady(s, e, supports, user); }
  }

  /** Users that do not support several connections only get an item when they have none. */
  lemma {:induction false} NewcomerAlone(s: State, e: Event, x: Item, supports: set<nat>, own: nat)
    requires Steady(s.items, supports) && Steady(AskedOf(s, e), supports) && x.user !in supports
    requires if x.kind == SMALL then e == GetDownload(x.user, true) && !x.mcn && AllowNew(s.items, x.user, true, own)
      else Asks(s, e, x.user) && AllowNew(AskedOf(s, e), x.user, false, own) && (x.mcn ==> !e.GetDownload?)
    ensures !x.mcn && forall i :: 0 <= i < |Before(s, e)| ==> Before(s, e)[i].user != x.user
  {
    hide Steady, AllowNew, Find, WithToken;
    if x.kind == SMALL {
      SmallOpen(s.items, x.user, supports, own);
    } else {
      assert e.Run? ==> AskedOf(s, e)[Find(s.items, e.c)].user == x.user;
      OpenWaits(AskedOf(s, e), x.user, supports, own);
    }
  }

  lemma {:induction false} OverlookedWaits(s: State, e: Event, x: Item, supports: set<nat>, user: nat, own: nat)
    requires Steady(AskedOf(s, e), supports) && x.state != ACTIVE
    requires x.kind == SMALL ==> e.GetDownload? && e.small
    requires x.kind != SMALL ==> Asks(s, e, x.user) && AllowNew(AskedOf(s, e), x.user, false, own)
    requires Asks(s, e, user) && AllowNew(AskedOf(s, e), user, false, own) ==> x.user == user
    requires x.kind != SMALL && !e.Fail? ==> Before(s, e) == AskedOf(s, e)
    ensures Overlooked(s, e, user, own) <==> Waits(x, user) && SomeWaits(Before(s, e), user)
  {
    hide Steady, AllowNew, Find, WithToken, SomeWaits, Before;
    if x.kind != SMALL && x.user == user {
      OpenWaits(AskedOf(s, e), user, supports, own);
      if e.Fail? { FailedWaits(s, e, user); }
    }
  }

  /** An event gives the user two waiting items exactly if a waiting one is overlooked. */
  lemma {:induction false} StepWaitsExactly(s: State, e: Event, supports: set<nat>, user: nat, own: nat)
    requires Steady(s.items, supports) && OneWaits(s.items, user) && Allowed(s, e, supports)
    ensures Steady(After(s, e, own).items, supports)
    ensures OneWaits(After(s, e, own).items, user) <==> !Overlooked(s, e, user, own)
  {
    var was := Before(s, e);
    var x := NewItemOf(s, e, user, own);
    hide Steady, OneWaits, Waits, After, Before, Asks, AskedOf, AllowNew, SomeWaits, Overlooked;
    BeforeSteady(s, e, supports, user);
    AskedSteady(s, e, supports, user);
    if x == [] {
      assert was + x == was;
      NotOverlooked(s, e, user, own);
    } else {
      assert x == [x[0]];
      if x[0].user !in supports { NewcomerAlone(s, e, x[0], supports, own); }
      PlusWaits(was, x[0], supports, user);
      OverlookedWaits(s, e, x[0], supports, user, own);
    }
  }

  lemma {:induction false} NotOverlooked(s: State, e: Event, user: nat, own: nat)
    requires !(Asks(s, e, user) && AllowNew(AskedOf(s, e), user, false, own))
    ensures !Overlooked(s, e, user, own)
  {
    hide Asks, AskedOf, AllowNew;
  }

  // ---------------------------------------------------------------- whole runs

  ghost predicate IsSmallRun(s: State, es: seq<Event>, supports: set<nat>, own: nat)
    decreases |es|
  {
    es == [] || (Allowed(s, es[0], supports) && IsSmallRun(After(s, es[0], own), es[1..], supports, own))
  }

  ghost predicate NeverTwoWait(s: State, es: seq<Event>, user: nat, own: nat)
    decreases |es|
  {
    OneWaits(s.items, user) && (es == [] || NeverTwoWait(After(s, es[0], own), es[1..], user, own))
  }

  ghost predicate NoneOverlooked(s: State, es: seq<Event>, user: nat, own: nat)
    decreases |es|
  {
    es == [] || (!Overlooked(s, es[0], user, own) && NoneOverlooked(After(s, es[0], own), es[1..], user, own))
  }

  /** In every run, small slots or not: a user never has two waiting items for more than small files
      exactly if no waiting item is overlooked. */
  lemma {:induction false} WaitingExactly(es: seq<Event>, supports: set<nat>, user: nat, own: nat)
    requires IsSmallRun(State([], 0), es, supports, own)
    ensures NeverTwoWait(State([], 0), es, user, own) <==> NoneOverlooked(State([], 0), es, user, own)
  {
    RunWaitsExactly(State([], 0), es, supports, user, own);
  }

  lemma {:induction false} RunWaitsExactly(s: State, es: seq<Event>, supports: set<nat>, user: nat, own: nat)
    requires Steady(s.items, supports) && OneWaits(s.items, user) && IsSmallRun(s, es, supports, own)
    ensures NeverTwoWait(s, es, user, own) <==> NoneOverlooked(s, es, user, own)
    decreases |es|
  {
    hide Steady, OneWaits, After, Allowed, Overlooked;
    if es != [] {
      var next := After(s, es[0], own);
      StepWaitsExactly(s, es[0], supports, user, own);
      if OneWaits(next.items, user) { RunWaitsExactly(next, es[1..], supports, user, own); }
    }
  }

  lemma {:induction false} Link(s: State, e: Event, t: State, es: seq<Event>, supports: set<nat>, own: nat)
    requires After(s, e, own) == t && Allowed(s, e, supports) && IsSmallRun(t, es, supports, own)
    ensures IsSmallRun(s, [e] + es, supports, own) && Exec(s, [e] + es, own) == Exec(t, es, own)
  {
    FirstStep(s, e, es, supports, own);
    assert ([e] + es)[1..] == es;
    hide After, Allowed;
  }

  lemma {:induction false} ThenAny(own: nat)
    ensures var d, e := Item(0, 7, SMALL, WAITING, false, true, 0), Item(0, 7, ANY, WAITING, false, true, 0);
      && After(State([d], 1), Retype(0, false, ANY), own) == State([e], 1)
      && After(State([e], 1), GetDownload(7, false), own) == State([e, NewItem(1, 7, ANY, false)], 2)
  {
    LastAllowed(Item(0, 7, ANY, WAITING, false, true, 0), own);
    hide AllowNew;
  }

  /** An item for small files was used, failed, and finds none left: it is for any file now, and waits.
      The next request does not see it, and a second one waits. */
  lemma {:induction false} FirstSmall(own: nat)
    ensures var a, b := NewItem(0, 7, SMALL, false), Item(0, 7, SMALL, ACTIVE, false, true, 0);
      && After(State([], 0), GetDownload(7, true), own) == State([a], 1)
      && After(State([a], 1), Connect(Connection(0, 7, true)), own) == State([b], 1)
      && After(State([b], 1), Fail(0, false), own) == State([b.(state := WAITING)], 1)
  {
    AllowNewExactly([], 7, true, own);
    hide AllowNew;
  }

  lemma {:induction false} SmallSlotRun(own: nat)
    ensures var s, c := State([], 0), Connection(0, 7, true);
      var es := [GetDownload(7, true)] +
        ([Connect(c)] + ([Fail(0, false)] + ([Retype(0, false, ANY)] + ([GetDownload(7, false)] + []))));
      IsSmallRun(s, es, {7}, own) && !OneWaits(Exec(s, es, own).items, 7)
    ensures Overlooked(State([Item(0, 7, ANY, WAITING, false, true, 0)], 1), GetDownload(7, false), 7, own)
  {
    var supports, c := {7}, Connection(0, 7, true);
    var a, b := NewItem(0, 7, SMALL, false), Item(0, 7, SMALL, ACTIVE, false, true, 0);
    var d, e, f := b.(state := WAITING), Item(0, 7, ANY, WAITING, false, true, 0), NewItem(1, 7, ANY, false);
    var s0, s1, s2, s3, s4, s5 := State([], 0), State([a], 1), State([b], 1), State([d], 1), State([e], 1),
      State([e, f], 2);
    var e0, e1, e2, e3, e4 := GetDownload(7, true), Connect(c), Fail(0, false), Retype(0, false, ANY),
      GetDownload(7, false);
    FirstSmall(own);
    ThenAny(own);
    LastAllowed(e, own);
    assert Waits([e, f][0], 7) && Waits([e, f][1], 7);
    hide After, IsSmallRun, OneWaits, AllowNew;
    NoEvents(s5, supports, own);
    Link(s4, e4, s5, [], supports, own);
    Link(s3, e3, s4, [e4] + [], supports, own);
    Link(s2, e2, s3, [e3] + ([e4] + []), supports, own);
    Link(s1, e1, s2, [e2] + ([e3] + ([e4] + [])), supports, own);
    Link(s0, e0, s1, [e1] + ([e2] + ([e3] + ([e4] + []))), supports, own);
  }

  lemma {:induction false} NoEvents(s: State, supports: set<nat>, own: nat)
    ensures IsSmallRun(s, [], supports, own) && Exec(s, [], own) == s
  {}

  lemma {:induction false} LastAllowed(e: Item, own: nat)
    requires e.user == 7 && e.mcn && e.kind != MCN_NORMAL && e.maxRemote == 0
    ensures AllowNew([e], 7, false, own)
  {
    AllowNewExactly([e], 7, false, own);
    assert RunningNormal([e][..0], 7) == 0;
  }

  // ---------------------------------------------------------------- two items for small files

  ghost predicate OneSmall(items: seq<Item>, user: nat) {
    forall i, j :: 0 <= i < j < |items| && items[i].user == items[j].user == user ==>
      items[i].kind != SMALL || items[j].kind != SMALL
  }

  /** A small file is found for an item for any files, while the user has an item for small files: the
      source asks the item itself for that, which never is one. */
  ghost predicate FoundSecond(s: State, e: Event, user: nat) {
    && e.Retype? && e.found == SMALL
    && var k := WithToken(s.items, e.token);
    && k < |s.items| && s.items[k].user == user && s.items[k].kind == ANY
    && exists j :: 0 <= j < |s.items| && s.items[j].user == user && s.items[j].kind == SMALL
  }

  lemma {:induction false} UpdateSmall(items: seq<Item>, k: nat, x: Item, user: nat)
    requires OneSmall(items, user) && k < |items| && x.user == items[k].user &&
      (x.kind == SMALL ==> items[k].kind == SMALL)
    ensures OneSmall(items[k := x], user)
  {}

  lemma {:induction false} WithoutSmall(items: seq<Item>, k: nat, user: nat)
    requires OneSmall(items, user) && k < |items|
    ensures OneSmall(Without(items, k), user)
  {
    var r := Without(items, k);
    forall i | 0 <= i < |r| ensures r[i] == items[if i < k then i else i + 1] {}
  }

  lemma {:induction false} TrimSmall(items: seq<Item>, k: nat, user: nat)
    requires OneSmall(items, user) && k < |items|
    ensures OneSmall(Trim(items, k).0, user)
  {
    hide OneSmall;
    if items[k].mcn && FirstExtra(items, k, 0) < |items| { WithoutSmall(items, FirstExtra(items, k, 0), user); }
  }

  lemma {:induction false} RetypedSmall(s: State, e: Event, user: nat)
    requires OneSmall(s.items, user) && e.Retype?
    ensures OneSmall(Before(s, e), user) <==> !FoundSecond(s, e, user)
  {
    var items, k := s.items, WithToken(s.items, e.token);
    hide WithToken;
    if k < |items| {
      var x := Retyped(items, k, e.hasDownload, e.found);
      var all := items[k := x];
      if x.user == user && x.kind == SMALL && items[k].kind != SMALL {
        if j :| 0 <= j < |items| && items[j].user == user && items[j].kind == SMALL {
          assert all[j].kind == all[k].kind == SMALL && all[j].user == all[k].user == user;
        }
      } else {
        if x.user == user { UpdateSmall(items, k, x, user); }
      }
    }
  }

  lemma {:induction false} BeforeSmall(s: State, e: Event, user: nat)
    requires OneSmall(s.items, user) && !e.Retype?
    ensures OneSmall(Before(s, e), user)
  {
    var items := s.items;
    hide OneSmall, WithToken, OfUser, Trim;
    match e
    case GetDownload(_, _) =>
    case Attempt(token, to) =>
      var k := WithToken(items, token);
      if k < |items| { UpdateSmall(items, k, items[k].(state := to), user); }
    case Remove(token) =>
      var k := WithToken(items, token);
      if k < |items| { WithoutSmall(items, k, user); }
    case Connect(c) =>
      var k := Find(items, c);
      if k < |items| { UpdateSmall(items, k, Activated(items[k], c.mcn), user); }
    case SetRemote(token, limit) =>
      var k := WithToken(items, token);
      if k < |items| { UpdateSmall(items, k, items[k].(maxRemote := limit), user); }
    case Run(c, _) =>
      var k := Find(items, c);
      if k < |items| { UpdateSmall(items, k, items[k].(running := true), user); }
    case Idle(c) =>
      var k := Find(items, c);
      if k < |items| {
        UpdateSmall(items, k, items[k].(running := false), user);
        TrimSmall(items[k := items[k].(running := false)], k, user);
      }
    case Fail(token, _) =>
      var k := WithToken(items, token);
      if k < |items| {
        TrimSmall(items, k, user);
        UpdateSmall(Trim(items, k).0, Trim(items, k).1, items[k].(state := WAITING, running := false), user);
      }
  }

  lemma {:induction false} PlusSmall(items: seq<Item>, x: seq<Item>, user: nat, own: nat)
    requires OneSmall(items, user) && |x| <= 1 &&
      (x != [] && x[0].kind == SMALL ==> AllowNew(items, x[0].user, true, own))
    ensures OneSmall(items + x, user)
  {
    if x != [] && x[0].kind == SMALL { AllowNewExactly(items, x[0].user, true, own); }
    hide AllowNew;
  }

  /** An event gives the user two items for small files exactly if it finds a second one. */
  lemma {:induction false} StepSmallExactly(s: State, e: Event, supports: set<nat>, user: nat, own: nat)
    requires OneSmall(s.items, user) && Allowed(s, e, supports)
    ensures OneSmall(After(s, e, own).items, user) <==> !FoundSecond(s, e, user)
  {
    var x := NewItemOf(s, e, user, own);
    hide OneSmall, After, AllowNew, WithToken, OfUser, Retyped;
    if e.Retype? {
      RetypedSmall(s, e, user);
      assert x == [] && Before(s, e) + [] == Before(s, e);
    } else {
      BeforeSmall(s, e, user);
      PlusSmall(Before(s, e), x, user, own);
    }
  }

  ghost predicate NeverTwoSmall(s: State, es: seq<Event>, user: nat, own: nat)
    decreases |es|
  {
    OneSmall(s.items, user) && (es == [] || NeverTwoSmall(After(s, es[0], own), es[1..], user, own))
  }

  ghost predicate NoneFound(s: State, es: seq<Event>, user: nat, own: nat)
    decreases |es|
  {
    es == [] || (!FoundSecond(s, es[0], user) && NoneFound(After(s, es[0], own), es[1..], user, own))
  }

  /** In every run: a user never has two items for small files exactly if no second one is found. */
  lemma {:induction false} SmallExactly(s: State, es: seq<Event>, supports: set<nat>, user: nat, own: nat)
    requires OneSmall(s.items, user) && IsSmallRun(s, es, supports, own)
    ensures NeverTwoSmall(s, es, user, own) <==> NoneFound(s, es, user, own)
    decreases |es|
  {
    hide OneSmall, After, Allowed, FoundSecond;
    if es != [] {
      var next := After(s, es[0], own);
      StepSmallExactly(s, es[0], supports, user, own);
      if OneSmall(next.items, user) { SmallExactly(next, es[1..], supports, user, own); }
    }
  }

  /** While an item for small files is in use, another one is asked for any file and finds a small one. */
  lemma {:induction false} TwoSmallRun(own: nat)
    ensures var s, c := State([], 0), Connection(0, 7, true);
      var es := [GetDownload(7, true)] + ([Connect(c)] + ([GetDownload(7, false)] + ([Retype(1, true, SMALL)] + [])));
      IsSmallRun(s, es, {7}, own) && !OneSmall(Exec(s, es, own).items, 7)
  {
    var supports, c := {7}, Connection(0, 7, true);
    var a, b := NewItem(0, 7, SMALL, false), Item(0, 7, SMALL, ACTIVE, false, true, 0);
    var d, e := NewItem(1, 7, ANY, false), NewItem(1, 7, SMALL, false);
    var s0, s1, s2, s3, s4 := State([], 0), State([a], 1), State([b], 1), State([b, d], 2), State([b, e], 2);
    var e0, e1, e2, e3 := GetDownload(7, true), Connect(c), GetDownload(7, false), Retype(1, true, SMALL);
    AllowNewExactly([], 7, true, own);
    LastAllowed(b, own);
    assert WithToken([b, d], 1) == 1 by { assert [b, d][1..] == [d]; }
    assert [b, d][1 := e] == [b, e];
    assert After(s0, e0, own) == s1 && After(s1, e1, own) == s2 && After(s2, e2, own) == s3 && After(s3, e3, own) == s4;
    assert [b, e][0].kind == [b, e][1].kind == SMALL && [b, e][0].user == [b, e][1].user == 7;
    hide After, IsSmallRun, OneSmall, AllowNew;
    NoEvents(s4, supports, own);
    Link(s3, e3, s4, [], supports, own);
    Link(s2, e2, s3, [e3] + [], supports, own);
    Link(s1, e1, s2, [e2] + ([e3] + []), supports, own);
    Link(s0, e0, s1, [e1] + ([e2] + ([e3] + [])), supports, own);
  }
}
