/** onDownloadRunning (connection/ConnectionManager.cpp) lets go of the lock between asking
    allowNewMCNUnsafe and creating the item: what may happen in between. */
module LateCreation {

  import opened ConnectionQueue
  import opened ConnectionRuns

  ghost predicate OneInactive(items: seq<Item>, user: nat) {
    forall i, j :: 0 <= i < j < |items| && items[i].user == items[j].user == user ==>
      items[i].state == ACTIVE || items[j].state == ACTIVE
  }

  ghost predicate Pending(items: seq<Item>, user: nat) {
    exists i :: 0 <= i < |items| && items[i].user == user && items[i].state != ACTIVE
  }

  /** What an event does for a user with normal slots: it leaves an item waiting, or sees to it that none
      is, or does neither. */
  datatype Effect = Leaves | Clears | Keeps

  function EffectOf(s: State, e: Event, user: nat, own: nat): Effect {
    var items := s.items;
    match e
    case GetDownload(u, _) => if u == user && AllowNew(items, u, false, own) then Leaves else Keeps
    case Run(c, hasDownload) =>
      if c.user == user && hasDownload && RunningAsksForNew(items, c, own) then Leaves else Keeps
    case Fail(token, _) =>
      var k := WithToken(items, token);
      if k < |items| && items[k].user == user then Leaves else Keeps
    case Remove(token) =>
      var k := WithToken(items, token);
      if k < |items| && items[k].user == user && items[k].state != ACTIVE then Clears else Keeps
    case Connect(c) =>
      var k := Find(items, c);
      if k < |items| && items[k].user == user && items[k].state != ACTIVE then Clears else Keeps
    case Idle(c) =>
      var k := Find(items, c);
      if k < |items| && items[k].user == user && items[k].running then Clears else Keeps
    case _ => Keeps
  }

  /** After the events an item of the user is waiting: the last one of them that matters decides. */
  ghost predicate Left(s: State, es: seq<Event>, user: nat, own: nat, was: bool)
    decreases |es|
  {
    if es == [] then was
    else
      var e := EffectOf(s, es[0], user, own);
      Left(After(s, es[0], own), es[1..], user, own, if e.Keeps? then was else e.Leaves?)
  }

  // ---------------------------------------------------------------- one event

  lemma {:induction false} UpdatePending(items: seq<Item>, k: nat, x: Item, user: nat)
    requires k < |items| && x.user == items[k].user
    ensures x.user != user || (x.state == ACTIVE <==> items[k].state == ACTIVE) ==>
      (Pending(items[k := x], user) <==> Pending(items, user))
    ensures x.user == user && x.state != ACTIVE ==> Pending(items[k := x], user)
  {
    var all := items[k := x];
    assert all[k] == x;
    if i :| 0 <= i < |items| && items[i].user == user && items[i].state != ACTIVE {
      assert i != k ==> all[i] == items[i];
    }
    if i :| 0 <= i < |items| && all[i].user == user && all[i].state != ACTIVE { assert i != k ==> all[i] == items[i]; }
  }

  /** An item that waits is the user's only one that does. */
  lemma {:induction false} OthersAreActive(items: seq<Item>, k: nat, supports: set<nat>, own: nat)
    requires Sound(items, supports, own) && k < |items| && items[k].state != ACTIVE
    ensures OthersActive(items, k)
  {
    forall j | 0 <= j < |items| && j != k && items[j].user == items[k].user ensures items[j].state == ACTIVE {
      assert Compatible(items[if j < k then j else k], items[if j < k then k else j], supports);
    }
  }

  lemma {:induction false} WithoutPending(items: seq<Item>, k: nat, supports: set<nat>, own: nat, user: nat)
    requires Sound(items, supports, own) && k < |items|
    ensures Pending(Without(items, k), user) <==>
      Pending(items, user) && !(items[k].user == user && items[k].state != ACTIVE)
  {
    var r := Without(items, k);
    forall i | 0 <= i < |r| ensures r[i] == items[if i < k then i else i + 1] {}
    if items[k].state != ACTIVE { OthersAreActive(items, k, supports, own); }
    if i :| 0 <= i < |items| && items[i].user == user && items[i].state != ACTIVE && i != k {
      assert r[if i < k then i else i - 1] == items[i];
    }
  }

  lemma {:induction false} ActivePending(items: seq<Item>, k: nat, x: Item, supports: set<nat>, own: nat)
    requires Sound(items, supports, own) && k < |items| && x.user == items[k].user && x.state == ACTIVE &&
      items[k].state != ACTIVE
    ensures !Pending(items[k := x], x.user)
  {
    OthersAreActive(items, k, supports, own);
    hide Sound;
  }

  lemma {:induction false} OthersOnly(items: seq<Item>, k: nat)
    requires k < |items| && OthersActive(items, k)
    ensures Pending(items, items[k].user) <==> items[k].state != ACTIVE
  {}

  /** Removing the extra item takes away the user's waiting one and no one else's. */
  lemma {:induction false} TrimPending(items: seq<Item>, k: nat, supports: set<nat>, own: nat, user: nat)
    requires Sound(items, supports, own) && k < |items|
    ensures var t := Trim(items, k);
      if user == items[k].user then Pending(t.0, user) <==> items[k].state != ACTIVE
      else Pending(t.0, user) <==> Pending(items, user)
  {
    var t := Trim(items, k);
    TrimSound(items, k, supports, own);
    OthersOnly(t.0, t.1);
    if items[k].mcn && items[k].kind == MCN_NORMAL && FirstExtra(items, k, 0) < |items| {
      WithoutPending(items, FirstExtra(items, k, 0), supports, own, user);
    }
    hide Sound, Pending;
  }

  lemma {:induction false} BeforePending(s: State, e: Event, supports: set<nat>, user: nat, own: nat)
    requires Sound(s.items, supports, own) && Possible(s, e, supports)
    ensures var effect := EffectOf(s, e, user, own);
      Pending(Before(s, e), user) <==>
        if effect.Keeps? || e.GetDownload? || e.Run? then Pending(s.items, user) else effect.Leaves?
  {
    var items := s.items;
    hide Sound, Pending, WithToken, OfUser, Trim, AllowNew;
    match e
    case GetDownload(_, _) =>
    case Retype(token, hasDownload, found) =>
      var k := WithToken(items, token);
      if k < |items| { UpdatePending(items, k, Retyped(items, k, hasDownload, found), user); }
    case Attempt(token, to) =>
      var k := WithToken(items, token);
      if k < |items| { UpdatePending(items, k, items[k].(state := to), user); }
    case Remove(token) =>
      var k := WithToken(items, token);
      if k < |items| {
        WithoutPending(items, k, supports, own, user);
        UpdatePending(items, k, items[k], user);
      }
    case Connect(c) => ConnectPending(items, c, supports, own, user);
    case SetRemote(token, limit) =>
      var k := WithToken(items, token);
      if k < |items| { UpdatePending(items, k, items[k].(maxRemote := limit), user); }
    case Run(c, _) =>
      var k := Find(items, c);
      if k < |items| { UpdatePending(items, k, items[k].(running := true), user); }
    case Idle(c) => IdlePending(items, c, supports, own, user);
    case Fail(token, _) => FailPending(items, token, supports, own, user);
  }

  lemma {:induction false} ConnectPending(items: seq<Item>, c: Connection, supports: set<nat>, own: nat, user: nat)
    requires Sound(items, supports, own)
    ensures var k := Find(items, c);
      Pending(Connected(items, c), user) <==>
        Pending(items, user) && !(k < |items| && items[k].user == user && items[k].state != ACTIVE)
  {
    var k := Find(items, c);
    hide Sound, Pending, Find;
    if k < |items| {
      var x := Activated(items[k], c.mcn);
      UpdatePending(items, k, x, user);
      if items[k].state != ACTIVE { ActivePending(items, k, x, supports, own); }
    }
  }

  lemma {:induction false} IdlePending(items: seq<Item>, c: Connection, supports: set<nat>, own: nat, user: nat)
    requires Sound(items, supports, own) && (Find(items, c) < |items| ==> items[Find(items, c)].state == ACTIVE)
    ensures var k := Find(items, c);
      Pending(Idled(items, c), user) <==>
        Pending(items, user) && !(k < |items| && items[k].user == user && items[k].running)
  {
    var k := Find(items, c);
    hide Sound, Pending, Find, Trim;
    if k < |items| && items[k].running {
      var x := items[k].(running := false);
      FineAt(items, k, supports, own);
      UpdateSound(items, k, x, supports, own);
      UpdatePending(items, k, x, user);
      TrimPending(items[k := x], k, supports, own, user);
    }
  }

  lemma {:induction false} FailPending(items: seq<Item>, token: nat, supports: set<nat>, own: nat, user: nat)
    requires Sound(items, supports, own)
    ensures var k := WithToken(items, token);
      Pending(Failed(items, token), user) <==> Pending(items, user) || (k < |items| && items[k].user == user)
  {
    var k := WithToken(items, token);
    hide Sound, Pending, WithToken, Trim;
    if k < |items| {
      var t := Trim(items, k);
      TrimPending(items, k, supports, own, user);
      UpdatePending(t.0, t.1, items[k].(state := WAITING, running := false), user);
    }
  }

  lemma {:induction false} PlusPending(items: seq<Item>, x: seq<Item>, user: nat)
    requires |x| <= 1 && (x != [] ==> x[0].state != ACTIVE)
    ensures Pending(items + x, user) <==> Pending(items, user) || (x != [] && x[0].user == user)
  {
    var all := items + x;
    if i :| 0 <= i < |items| && items[i].user == user && items[i].state != ACTIVE { assert all[i] == items[i]; }
    if x != [] { assert all[|items|] == x[0]; }
  }

  /** The effect of an event is what it says. */
  lemma {:induction false} StepPending(s: State, e: Event, supports: set<nat>, user: nat, own: nat)
    requires Sound(s.items, supports, own) && Possible(s, e, supports)
    ensures var effect := EffectOf(s, e, user, own);
      Pending(After(s, e, own).items, user) <==> if effect.Keeps? then Pending(s.items, user) else effect.Leaves?
  {
    var x := NewItemOf(s, e, user, own);
    BeforePending(s, e, supports, user, own);
    hide Sound, Pending, After, Before, AllowNew;
    PlusPending(Before(s, e), x, user);
  }

  // ---------------------------------------------------------------- between check and creation

  lemma {:induction false} LeftExactly(s: State, es: seq<Event>, supports: set<nat>, user: nat, own: nat)
    requires Sound(s.items, supports, own) && IsRun(s, es, supports, own)
    ensures Pending(Exec(s, es, own).items, user) <==> Left(s, es, user, own, Pending(s.items, user))
    decreases |es|
  {
    hide Sound, Pending, After, Possible, EffectOf;
    if es != [] {
      StepPending(s, es[0], supports, user, own);
      StepKeepsSound(s, es[0], supports, own);
      LeftExactly(After(s, es[0], own), es[1..], supports, user, own);
    }
  }

  /** When a new item is allowed, no item of the user waits. */
  lemma {:induction false} AllowedNoneWaits(items: seq<Item>, user: nat, supports: set<nat>, own: nat)
    requires Sound(items, supports, own) && AllowNew(items, user, false, own)
    ensures !Pending(items, user)
  {
    AllowNewExactly(items, user, false, own);
    forall i | 0 <= i < |items| && items[i].user == user ensures items[i].state == ACTIVE {
      assert Fine(items[i], supports);
    }
  }

  lemma {:induction false} PlusInactive(items: seq<Item>, x: Item, supports: set<nat>, own: nat)
    requires Sound(items, supports, own) && x.state != ACTIVE
    ensures OneInactive(items + [x], x.user) <==> !Pending(items, x.user)
  {
    var all := items + [x];
    if i :| 0 <= i < |items| && items[i].user == x.user && items[i].state != ACTIVE {
      assert all[i].user == all[|items|].user && all[i].state != ACTIVE;
    }
    forall i, j | 0 <= i < j < |items| && all[i].user == all[j].user == x.user
      ensures all[i].state == ACTIVE || all[j].state == ACTIVE
    {
      assert Compatible(items[i], items[j], supports);
    }
  }

  /** A connection starts running and another item is allowed; after whatever happens until it is
      created, the user has two waiting items exactly if what happened leaves one waiting. */
  lemma {:induction false} LateCreationExactly(s: State, c: Connection, es: seq<Event>, supports: set<nat>, own: nat)
    requires Sound(s.items, supports, own) && Possible(s, Run(c, true), supports) && RunningAsksForNew(s.items, c, own)
    requires IsRun(s.(items := Running(s.items, c)), es, supports, own)
    ensures var checked := s.(items := Running(s.items, c));
      OneInactive(Exec(checked, es, own).Plus(c.user, MCN_NORMAL, true).items, c.user) <==>
      !Left(checked, es, c.user, own, false)
  {
    var checked := s.(items := Running(s.items, c));
    hide Sound, Pending, Find, AllowNew, OneInactive, Left, IsRun, Exec;
    StepKeepsSound(s, Run(c, false), supports, own);
    AllowedNoneWaits(checked.items, c.user, supports, own);
    LeftExactly(checked, es, supports, c.user, own);
    RunsKeepSound(checked, es, supports, own);
    PlusInactive(Exec(checked, es, own).items, NewItem(Exec(checked, es, own).next, c.user, MCN_NORMAL, true),
      supports, own);
  }

  /** Whenever the check has passed, a request for a download in between breaks it: two items wait. */
  lemma {:induction false} LateCreationRace(s: State, c: Connection, supports: set<nat>, own: nat)
    requires Sound(s.items, supports, own) && Possible(s, Run(c, true), supports) && RunningAsksForNew(s.items, c, own)
    ensures var later := After(s.(items := Running(s.items, c)), GetDownload(c.user, false), own);
      !OneInactive(later.Plus(c.user, MCN_NORMAL, true).items, c.user)
  {
    var checked, e := s.(items := Running(s.items, c)), GetDownload(c.user, false);
    hide Sound, Find, AllowNew, OneInactive;
    assert [e][1..] == [] && Exec(checked, [e], own) == After(checked, e, own);
    assert IsRun(checked, [e], supports, own);
    assert EffectOf(checked, e, c.user, own) == Leaves;
    LateCreationExactly(s, c, [e], supports, own);
  }

  /** Such a state is reached by a first download. */
  lemma {:induction false} FirstDownloadAsks(own: nat)
    requires own != 1
    ensures var c := Connection(0, 7, true);
      var s := Exec(State([], 0), [GetDownload(7, false)] + ([Connect(c)] + []), own);
      Possible(s, Run(c, true), {7}) && RunningAsksForNew(s.items, c, own)
  {
    var c, d := Connection(0, 7, true), Item(0, 7, MCN_NORMAL, ACTIVE, false, true, 0);
    FirstDownload(c, d, own);
    var x := d.(running := true);
    assert RunningNormal([x], 7) == 1;
    AllowNewExactly([x], 7, false, own);
    assert Running([d], c) == [x];
    hide AllowNew, Exec, RunningNormal;
  }

  lemma {:induction false} FirstDownload(c: Connection, d: Item, own: nat)
    requires c == Connection(0, 7, true) && d == Item(0, 7, MCN_NORMAL, ACTIVE, false, true, 0)
    ensures Exec(State([], 0), [GetDownload(7, false)] + ([Connect(c)] + []), own) == State([d], 1)
  {
    var a := NewItem(0, 7, ANY, false);
    AllowNewExactly([], 7, false, own);
    assert After(State([], 0), GetDownload(7, false), own) == State([a], 1);
    assert After(State([a], 1), Connect(c), own) == State([d], 1);
    hide AllowNew, After;
    FirstStep(State([], 0), GetDownload(7, false), [Connect(c)] + [], {7}, own);
    FirstStep(State([a], 1), Connect(c), [], {7}, own);
  }
}
