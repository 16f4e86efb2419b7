/** Whole runs of download connections with normal slots (connection/ConnectionManager.cpp): a user
    never has two items waiting for a connection, nor more items than the own limit. */
module ConnectionRuns {

  import opened ConnectionQueue

  /** Retype: the queue is asked what there is to download, before a connection attempt.
      Attempt: a connection attempt is made, fails or times out.  SetRemote: the user states a limit.
      hasDownload: the queue has something to download from the user. */
  datatype Event =
    | GetDownload(user: nat, small: bool)
    | Retype(token: nat, hasDownload: bool, found: Kind)
    | Attempt(token: nat, to: Progress)
    | Remove(token: nat)
    | Connect(c: Connection)
    | SetRemote(token: nat, limit: nat)
    | Run(c: Connection, hasDownload: bool)
    | Idle(c: Connection)
    | Fail(token: nat, hasDownload: bool)

  /** The list of items and the next free token. */
  datatype State = State(items: seq<Item>, next: nat) {
    function Plus(user: nat, kind: Kind, mcn: bool): State {
      State(items + [NewItem(next, user, kind, mcn)], next + 1)
    }
  }

  function Updated(items: seq<Item>, token: nat, f: Item -> Item): seq<Item> {
    var k := WithToken(items, token);
    if k == |items| then items else items[k := f(items[k])]
  }

  /** checkIdle did not serve the request of GetDownload, and check and creation are one step. */
  function After(s: State, e: Event, own: nat): State {
    match e
    case GetDownload(user, small) =>
      if AllowNew(s.items, user, small, own) then s.Plus(user, if small then SMALL else ANY, false) else s
    case Retype(token, hasDownload, found) =>
      var k := WithToken(s.items, token);
      if k == |s.items| then s else s.(items := s.items[k := Retyped(s.items, k, hasDownload, found)])
    case Attempt(token, to) => s.(items := Updated(s.items, token, (i: Item) => i.(state := to)))
    case Remove(token) =>
      var k := WithToken(s.items, token);
      if k == |s.items| then s else s.(items := Without(s.items, k))
    case Connect(c) => s.(items := Connected(s.items, c))
    case SetRemote(token, limit) => s.(items := Updated(s.items, token, (i: Item) => i.(maxRemote := limit)))
    case Run(c, hasDownload) =>
      var next := s.(items := Running(s.items, c));
      if hasDownload && RunningAsksForNew(s.items, c, own) then next.Plus(c.user, MCN_NORMAL, true) else next
    case Idle(c) => s.(items := Idled(s.items, c))
    case Fail(token, hasDownload) =>
      var next := s.(items := Failed(s.items, token));
      if hasDownload && FailedAsksForNew(s.items, token, own) then
        next.Plus(s.items[WithToken(s.items, token)].user, MCN_NORMAL, true)
      else next
  }

  /** The connection is one of the item's user, who supports several connections or not. */
  ghost predicate Fits(items: seq<Item>, c: Connection, supports: set<nat>) {
    c.mcn == (c.user in supports) && (Find(items, c) < |items| ==> items[Find(items, c)].user == c.user)
  }

  /** Normal slots only; reports of running and idle connections are about active items. */
  ghost predicate Possible(s: State, e: Event, supports: set<nat>) {
    match e
    case GetDownload(user, small) => !small
    case Retype(_, _, found) => found != SMALL
    case Attempt(token, to) =>
      to != ACTIVE && (WithToken(s.items, token) < |s.items| ==> s.items[WithToken(s.items, token)].state != ACTIVE)
    case Connect(c) => Fits(s.items, c, supports)
    case Run(c, _) => Fits(s.items, c, supports) &&
      (Find(s.items, c) < |s.items| ==> s.items[Find(s.items, c)].state == ACTIVE)
    case Idle(c) => Fits(s.items, c, supports) &&
      (Find(s.items, c) < |s.items| ==> s.items[Find(s.items, c)].state == ACTIVE)
    case _ => true
  }

  ghost predicate IsRun(s: State, es: seq<Event>, supports: set<nat>, own: nat)
    decreases |es|
  {
    es == [] || (Possible(s, es[0], supports) && IsRun(After(s, es[0], own), es[1..], supports, own))
  }

  function Exec(s: State, es: seq<Event>, own: nat): State
    decreases |es|
  {
    if es == [] then s else Exec(After(s, es[0], own), es[1..], own)
  }

  lemma {:induction false} FirstStep(s: State, e: Event, es: seq<Event>, supports: set<nat>, own: nat)
    ensures Exec(s, [e] + es, own) == Exec(After(s, e, own), es, own)
    ensures IsRun(s, [e] + es, supports, own) <==>
      Possible(s, e, supports) && IsRun(After(s, e, own), es, supports, own)
  {
    assert ([e] + es)[1..] == es;
    hide After, Possible;
  }

  /** The event may have a normal item created for the user, if allowNewMCNUnsafe agrees on the list. */
  predicate Asks(s: State, e: Event, user: nat) {
    match e
    case GetDownload(u, small) => !small && u == user
    case Run(c, hasDownload) =>
      var k := Find(s.items, c);
      hasDownload && k < |s.items| && !s.items[k].running && s.items[k].mcn && s.items[k].user == user
    case Fail(token, hasDownload) =>
      var k := WithToken(s.items, token);
      && hasDownload && k < |s.items| && s.items[k].mcn && s.items[k].user == user
      && s.items[k].kind == SMALL && s.items[k].state == ACTIVE
    case _ => false
  }

  /** The list that is asked. */
  function AskedOf(s: State, e: Event): seq<Item> {
    if e.Run? then Running(s.items, e.c) else s.items
  }

  /** What the event does before it may ask for a new item. */
  function Before(s: State, e: Event): seq<Item> {
    match e
    case GetDownload(_, _) => s.items
    case Run(c, _) => Running(s.items, c)
    case Fail(token, _) => Failed(s.items, token)
    case _ => After(s, e, 0).items
  }

  /** A connection is reported for the user of its item. */
  predicate Belongs(s: State, e: Event) {
    e.Run? && Find(s.items, e.c) < |s.items| ==> s.items[Find(s.items, e.c)].user == e.c.user
  }

  /** The new item of an event, if there is one. */
  lemma {:induction false} NewItemOf(s: State, e: Event, user: nat, own: nat) returns (x: seq<Item>)
    requires Belongs(s, e)
    ensures After(s, e, own).items == Before(s, e) + x && |x| <= 1 &&
      (x != [] ==> x[0].state != ACTIVE && !x[0].running)
    ensures x != [] && x[0].kind == SMALL ==>
      e == GetDownload(x[0].user, true) && !x[0].mcn && AllowNew(s.items, x[0].user, true, own)
    ensures x != [] && x[0].kind != SMALL ==> Asks(s, e, x[0].user) && AllowNew(AskedOf(s, e), x[0].user, false, own)
    ensures Asks(s, e, user) && AllowNew(AskedOf(s, e), user, false, own) ==>
      x != [] && x[0].user == user && x[0].kind != SMALL
    ensures Asks(s, e, user) && !e.Fail? ==> Before(s, e) == AskedOf(s, e)
    ensures x != [] && x[0].mcn ==> !e.GetDownload?
  {
    hide AllowNew, OfUser, WithToken, Trim;
    var was := Before(s, e);
    x := [];
    assert was + x == was;
    match e
    case GetDownload(u, small) =>
      if AllowNew(s.items, u, small, own) { x := [NewItem(s.next, u, if small then SMALL else ANY, false)]; }
    case Run(c, hasDownload) =>
      if hasDownload && RunningAsksForNew(s.items, c, own) { x := [NewItem(s.next, c.user, MCN_NORMAL, true)]; }
    case Fail(token, hasDownload) =>
      if hasDownload && FailedAsksForNew(s.items, token, own) {
        x := [NewItem(s.next, s.items[WithToken(s.items, token)].user, MCN_NORMAL, true)];
      }
    case _ =>
  }

  // ---------------------------------------------------------------- the invariant

  predicate Fine(i: Item, supports: set<nat>) {
    && (i.running ==> i.state == ACTIVE) && i.kind != SMALL && (i.mcn ==> i.kind == MCN_NORMAL)
    && if i.user in supports then i.state == ACTIVE ==> i.mcn else !i.mcn
  }

  /** Two items of the same user. */
  predicate Compatible(i: Item, j: Item, supports: set<nat>) {
    i.user == j.user ==> i.user in supports && (i.state == ACTIVE || j.state == ACTIVE)
  }

  function Count(items: seq<Item>, user: nat): nat {
    if items == [] then 0
    else Count(items[..|items| - 1], user) + if items[|items| - 1].user == user then 1 else 0
  }

  ghost predicate Sound(items: seq<Item>, supports: set<nat>, own: nat) {
    && (forall i :: 0 <= i < |items| ==> Fine(items[i], supports))
    && (forall i, j :: 0 <= i < j < |items| ==> Compatible(items[i], items[j], supports))
    && forall user :: user in supports && own != 0 ==> Count(items, user) <= own
  }

  lemma {:induction false} CountPlus(items: seq<Item>, i: Item, user: nat)
    ensures Count(items + [i], user) == Count(items, user) + if i.user == user then 1 else 0
  {
    assert (items + [i])[..|items|] == items;
  }

  lemma {:induction false} CountConcat(a: seq<Item>, b: seq<Item>, user: nat)
    ensures Count(a + b, user) == Count(a, user) + Count(b, user)
    decreases |b|
  {
    if b == [] {
      assert a + b == a;
    } else {
      var b' := b[..|b| - 1];
      CountConcat(a, b', user);
      CountPlus(a + b', b[|b| - 1], user);
      CountPlus(b', b[|b| - 1], user);
      assert a + b == (a + b') + [b[|b| - 1]] && b == b' + [b[|b| - 1]];
    }
  }

  lemma {:induction false} CountSplit(items: seq<Item>, k: nat, user: nat)
    requires k < |items|
    ensures Count(items, user) == Count(items[..k], user) + (if items[k].user == user then 1 else 0) +
      Count(items[k + 1..], user)
  {
    assert items == (items[..k] + [items[k]]) + items[k + 1..];
    CountConcat(items[..k] + [items[k]], items[k + 1..], user);
    CountPlus(items[..k], items[k], user);
  }

  lemma {:induction false} CountUpdated(items: seq<Item>, k: nat, x: Item, user: nat)
    requires k < |items| && x.user == items[k].user
    ensures Count(items[k := x], user) == Count(items, user)
  {
    CountSplit(items, k, user);
    CountSplit(items[k := x], k, user);
    assert items[k := x][..k] == items[..k] && items[k := x][k + 1..] == items[k + 1..];
  }

  lemma {:induction false} CountWithout(items: seq<Item>, k: nat, user: nat)
    requires k < |items|
    ensures Count(Without(items, k), user) == Count(items, user) - if items[k].user == user then 1 else 0
  {
    CountSplit(items, k, user);
    CountConcat(items[..k], items[k + 1..], user);
  }

  /** An item may change in any way that fits the others. */
  lemma {:induction false} UpdateSound(items: seq<Item>, k: nat, x: Item, supports: set<nat>, own: nat)
    requires Sound(items, supports, own) && k < |items| && x.user == items[k].user && Fine(x, supports)
    requires x.state == ACTIVE || items[k].state != ACTIVE || OthersActive(items, k)
    ensures Sound(items[k := x], supports, own)
  {
    hide Fine;
    forall user ensures Count(items[k := x], user) == Count(items, user) { CountUpdated(items, k, x, user); }
    var all := items[k := x];
    forall i, j | 0 <= i < j < |all| ensures Compatible(all[i], all[j], supports) {
      assert Compatible(items[i], items[j], supports);
    }
  }

  ghost predicate OthersActive(items: seq<Item>, k: nat)
    requires k < |items|
  {
    forall j :: 0 <= j < |items| && j != k && items[j].user == items[k].user ==> items[j].state == ACTIVE
  }

  lemma {:induction false} WithoutSound(items: seq<Item>, k: nat, supports: set<nat>, own: nat)
    requires Sound(items, supports, own) && k < |items|
    ensures Sound(Without(items, k), supports, own)
  {
    var r := Without(items, k);
    hide Fine, Compatible;
    forall i | 0 <= i < |r| ensures r[i] == items[if i < k then i else i + 1] {}
    forall user | user in supports && own != 0 ensures Count(r, user) <= own {
      CountWithout(items, k, user);
    }
  }

  // ---------------------------------------------------------------- a new item

  /** When the loop passes, all items of the user allow several connections and are running. */
  lemma {:induction false} ScanPassed(items: seq<Item>, n: nat, user: nat, supports: set<nat>)
    requires n <= |items| && forall i :: 0 <= i < |items| ==> Fine(items[i], supports)
    requires ScanFor(items, n, user, false).Passed?
    ensures var r := ScanFor(items, n, user, false);
      && r.running == Count(items[..n], user) && (r.support <==> r.running > 0)
      && forall i :: 0 <= i < n && items[i].user == user ==> items[i].mcn && items[i].running
  {
    if n > 0 {
      ScanPassed(items, n - 1, user, supports);
      CountPlus(items[..n - 1], items[n - 1], user);
      assert items[..n] == items[..n - 1] + [items[n - 1]];
      assert Fine(items[n - 1], supports);
    }
  }

  lemma {:induction false} PlusSound(items: seq<Item>, x: Item, supports: set<nat>, own: nat)
    requires Sound(items, supports, own) && AllowNew(items, x.user, false, own) && Fine(x, supports)
    ensures Sound(items + [x], supports, own)
  {
    ScanPassed(items, |items|, x.user, supports);
    assert items[..|items|] == items;
    var all := items + [x];
    forall user | user in supports && own != 0 ensures Count(all, user) <= own { CountPlus(items, x, user); }
    forall i, j | 0 <= i < j < |all| ensures Compatible(all[i], all[j], supports) {
      assert Fine(items[i], supports);
      if j < |items| { assert Compatible(items[i], items[j], supports); }
    }
  }

  // ---------------------------------------------------------------- failing

  /** After removeExtraMCNUnsafe no other item of the user waits for a connection. */
  lemma {:induction false} TrimSound(items: seq<Item>, k: nat, supports: set<nat>, own: nat)
    requires Sound(items, supports, own) && k < |items|
    ensures var t := Trim(items, k); Sound(t.0, supports, own) && OthersActive(t.0, t.1)
  {
    var t, j := Trim(items, k), FirstExtra(items, k, 0);
    hide FirstExtra;
    assert Fine(items[k], supports);
    if items[k].mcn && j < |items| {
      WithoutSound(items, j, supports, own);
      forall i | 0 <= i < |t.0| && i != t.1 && t.0[i].user == t.0[t.1].user ensures t.0[i].state == ACTIVE {
        var m := if i < j then i else i + 1;
        assert t.0[i] == items[m] && m != j;
        assert Compatible(items[if m < j then m else j], items[if m < j then j else m], supports);
      }
    } else {
      forall i | 0 <= i < |items| && i != k && items[i].user == items[k].user ensures items[i].state == ACTIVE {
        assert Fine(items[i], supports);
        assert items[k].mcn ==> !Extra(items, k, i);
        assert Compatible(items[if i < k then i else k], items[if i < k then k else i], supports);
      }
    }
  }

  // ---------------------------------------------------------------- every step, every run

  lemma {:induction false} StepKeepsSound(s: State, e: Event, supports: set<nat>, own: nat)
    requires Sound(s.items, supports, own) && Possible(s, e, supports)
    ensures Sound(After(s, e, own).items, supports, own)
  {
    var items := s.items;
    hide Sound, AllowNew, FirstExtra, WithToken, OfUser;
    match e
    case GetDownload(user, small) =>
      if AllowNew(items, user, small, own) { PlusSound(items, NewItem(s.next, user, ANY, false), supports, own); }
    case Retype(token, hasDownload, found) =>
      var k := WithToken(items, token);
      if k < |items| {
        FineAt(items, k, supports, own);
        assert items[k := items[k]] == items;
      }
    case Attempt(token, to) =>
      var k := WithToken(items, token);
      if k < |items| {
        FineAt(items, k, supports, own);
        UpdateSound(items, k, items[k].(state := to), supports, own);
      }
    case Remove(token) =>
      var k := WithToken(items, token);
      if k < |items| { WithoutSound(items, k, supports, own); }
    case SetRemote(token, limit) =>
      var k := WithToken(items, token);
      if k < |items| {
        FineAt(items, k, supports, own);
        UpdateSound(items, k, items[k].(maxRemote := limit), supports, own);
      }
    case Connect(c) => ConnectKeeps(items, c, supports, own);
    case Run(c, hasDownload) => RunKeeps(s, c, hasDownload, supports, own);
    case Idle(c) => IdleKeeps(items, c, supports, own);
    case Fail(token, hasDownload) => FailKeeps(s, token, hasDownload, supports, own);
  }

  lemma {:induction false} FineAt(items: seq<Item>, k: nat, supports: set<nat>, own: nat)
    requires Sound(items, supports, own) && k < |items|
    ensures Fine(items[k], supports)
  {
    hide Fine, Compatible;
  }

  lemma {:induction false} ConnectKeeps(items: seq<Item>, c: Connection, supports: set<nat>, own: nat)
    requires Sound(items, supports, own) && Fits(items, c, supports)
    ensures Sound(Connected(items, c), supports, own)
  {
    var k := Find(items, c);
    hide Sound, Find;
    if k < |items| {
      FineAt(items, k, supports, own);
      UpdateSound(items, k, Activated(items[k], c.mcn), supports, own);
    }
  }

  lemma {:induction false} RunKeeps(s: State, c: Connection, hasDownload: bool, supports: set<nat>, own: nat)
    requires Sound(s.items, supports, own) && Possible(s, Run(c, hasDownload), supports)
    ensures Sound(After(s, Run(c, hasDownload), own).items, supports, own)
  {
    var items, k := s.items, Find(s.items, c);
    hide Sound, Find, AllowNew;
    if k < |items| {
      FineAt(items, k, supports, own);
      UpdateSound(items, k, items[k].(running := true), supports, own);
      if hasDownload && RunningAsksForNew(items, c, own) {
        PlusSound(Running(items, c), NewItem(s.next, c.user, MCN_NORMAL, true), supports, own);
      }
    }
  }

  lemma {:induction false} IdleKeeps(items: seq<Item>, c: Connection, supports: set<nat>, own: nat)
    requires Sound(items, supports, own)
    ensures Sound(Idled(items, c), supports, own)
  {
    var k := Find(items, c);
    hide Sound, Find, Trim;
    if k < |items| {
      FineAt(items, k, supports, own);
      UpdateSound(items, k, items[k].(running := false), supports, own);
      TrimSound(items[k := items[k].(running := false)], k, supports, own);
    }
  }

  lemma {:induction false} FailKeeps(s: State, token: nat, hasDownload: bool, supports: set<nat>, own: nat)
    requires Sound(s.items, supports, own)
    ensures Sound(After(s, Fail(token, hasDownload), own).items, supports, own)
  {
    var items, k := s.items, WithToken(s.items, token);
    hide Sound, WithToken, Trim, AllowNew;
    if k < |items| {
      var t := Trim(items, k);
      TrimSound(items, k, supports, own);
      FineAt(items, k, supports, own);
      UpdateSound(t.0, t.1, items[k].(state := WAITING, running := false), supports, own);
    }
  }

  lemma {:induction false} RunsKeepSound(s: State, es: seq<Event>, supports: set<nat>, own: nat)
    requires Sound(s.items, supports, own) && IsRun(s, es, supports, own)
    ensures Sound(Exec(s, es, own).items, supports, own)
    decreases |es|
  {
    hide Sound, After, Possible;
    if es != [] {
      StepKeepsSound(s, es[0], supports, own);
      RunsKeepSound(After(s, es[0], own), es[1..], supports, own);
    }
  }

  /** In every run from the empty list: at most one item of a user is not active, running items are
      active, users without support have one item, and others no more than the own limit, if there is one. */
  lemma {:induction false} OneWaitingItem(es: seq<Event>, supports: set<nat>, own: nat)
    requires IsRun(State([], 0), es, supports, own)
    ensures var items := Exec(State([], 0), es, own).items;
      && (forall i, j :: 0 <= i < j < |items| && items[i].user == items[j].user ==>
        items[i].user in supports && (items[i].state == ACTIVE || items[j].state == ACTIVE))
      && (forall i :: 0 <= i < |items| && items[i].running ==> items[i].state == ACTIVE)
      && forall user :: user in supports && own != 0 ==> Count(items, user) <= own
  {
    RunsKeepSound(State([], 0), es, supports, own);
    var items := Exec(State([], 0), es, own).items;
    hide Exec, IsRun, Count;
    forall i, j | 0 <= i < j < |items| && items[i].user == items[j].user
      ensures items[i].user in supports && (items[i].state == ACTIVE || items[j].state == ACTIVE)
    {
      assert Compatible(items[i], items[j], supports);
    }
    forall i | 0 <= i < |items| && items[i].running ensures items[i].state == ACTIVE {
      assert Fine(items[i], supports);
    }
  }
}
