/** Limits on the connections to one user (connection/ConnectionManager.cpp).  The limit a user states is
    asked of the last item of the whole list, whoever that belongs to. */
module RemoteLimits {

  import opened ConnectionQueue
  import opened ConnectionRuns

  /** A new item stays within the limit that the k-th item carries, exactly if there is room, or the
      own limit or the one carried by the last item forbids it. */
  lemma {:induction false} RemoteLimitExactly(items: seq<Item>, k: nat, own: nat)
    requires k < |items|
    ensures var user, limit, last := items[k].user, items[k].maxRemote, items[|items| - 1];
      var n := RunningNormal(items, user);
      (AllowNew(items, user, false, own) ==> limit == 0 || n < limit) <==>
        || limit == 0 || n < limit || !Open(items, user, false)
        || 0 < own <= n || 0 < last.maxRemote <= n
  {
    AllowNewExactly(items, items[k].user, false, own);
  }

  // ---------------------------------------------------------------- whole runs

  /** The user states this limit with each connection. */
  ghost predicate Stating(s: State, e: Event, user: nat, limit: nat) {
    match e
    case SetRemote(token, l) =>
      WithToken(s.items, token) < |s.items| && s.items[WithToken(s.items, token)].user == user ==> l == limit
    case Connect(c) =>
      var k := Find(s.items, c);
      k < |s.items| && s.items[k].user == user && s.items[k].state != ACTIVE ==> s.items[k].maxRemote == limit
    case _ => true
  }

  ghost predicate AlwaysStating(s: State, es: seq<Event>, user: nat, limit: nat, own: nat)
    decreases |es|
  {
    es == [] || (Stating(s, es[0], user, limit) && AlwaysStating(After(s, es[0], own), es[1..], user, limit, own))
  }

  ghost predicate Stated(items: seq<Item>, user: nat, limit: nat) {
    forall i :: 0 <= i < |items| && items[i].user == user && items[i].state == ACTIVE ==> items[i].maxRemote == limit
  }

  /** Another item is wanted when the limit is reached and all items of the user are running: then the own
      limit forbids it, or the last item of the list belongs to the user or carries a limit as low. */
  ghost predicate Heeded(s: State, e: Event, user: nat, limit: nat, own: nat) {
    var items := AskedOf(s, e);
    Asks(s, e, user) && Open(items, user, false) && Count(items, user) == limit > 0 ==>
      0 < own <= limit || (items != [] &&
        (items[|items| - 1].user == user || 0 < items[|items| - 1].maxRemote <= limit))
  }

  ghost predicate AlwaysHeeded(s: State, es: seq<Event>, user: nat, limit: nat, own: nat)
    decreases |es|
  {
    es == [] || (Heeded(s, es[0], user, limit, own) && AlwaysHeeded(After(s, es[0], own), es[1..], user, limit, own))
  }

  /** The user never has more items than this. */
  ghost predicate AlwaysWithin(s: State, es: seq<Event>, user: nat, limit: nat, own: nat)
    decreases |es|
  {
    Count(s.items, user) <= limit && (es == [] || AlwaysWithin(After(s, es[0], own), es[1..], user, limit, own))
  }

  lemma {:induction false} TrimCount(items: seq<Item>, k: nat, user: nat, limit: nat)
    requires k < |items| && Stated(items, user, limit)
    ensures var t := Trim(items, k).0; Count(t, user) <= Count(items, user) && Stated(t, user, limit)
  {
    var j := FirstExtra(items, k, 0);
    if items[k].mcn && items[k].kind == MCN_NORMAL && j < |items| {
      CountWithout(items, j, user);
      WithoutStated(items, j, user, limit);
    }
  }

  lemma {:induction false} WithoutStated(items: seq<Item>, k: nat, user: nat, limit: nat)
    requires k < |items| && Stated(items, user, limit)
    ensures Stated(Without(items, k), user, limit)
  {
    var r := Without(items, k);
    forall i | 0 <= i < |r| ensures r[i] == items[if i < k then i else i + 1] {}
  }

  lemma {:induction false} UpdatedStated(items: seq<Item>, k: nat, x: Item, user: nat, limit: nat)
    requires k < |items| && Stated(items, user, limit) && x.user == items[k].user
    requires x.user == user && x.state == ACTIVE ==> x.maxRemote == limit
    ensures Stated(items[k := x], user, limit) && Count(items[k := x], user) == Count(items, user)
  {
    CountUpdated(items, k, x, user);
  }

  lemma {:induction false} BeforeCount(s: State, e: Event, supports: set<nat>, user: nat, limit: nat)
    requires Possible(s, e, supports) && Stating(s, e, user, limit) && Stated(s.items, user, limit)
    ensures Count(Before(s, e), user) <= Count(s.items, user) && Stated(Before(s, e), user, limit)
  {
    var items := s.items;
    hide Stated, WithToken, OfUser, Count, Trim;
    match e
    case GetDownload(_, _) =>
    case Retype(token, hasDownload, found) =>
      var k := WithToken(items, token);
      if k < |items| { RetypedStated(items, k, hasDownload, found, user, limit); }
    case Attempt(token, to) =>
      var k := WithToken(items, token);
      if k < |items| { UpdatedStated(items, k, items[k].(state := to), user, limit); }
    case Remove(token) =>
      var k := WithToken(items, token);
      if k < |items| {
        CountWithout(items, k, user);
        WithoutStated(items, k, user, limit);
      }
    case Connect(c) => ConnectedStated(s, c, user, limit);
    case SetRemote(token, l) =>
      var k := WithToken(items, token);
      if k < |items| { LimitStated(items, k, l, user, limit); }
    case Run(c, _) =>
      var k := Find(items, c);
      if k < |items| {
        StatedAt(items, k, user, limit);
        UpdatedStated(items, k, items[k].(running := true), user, limit);
      }
    case Idle(c) =>
      var k := Find(items, c);
      if k < |items| && items[k].running {
        StatedAt(items, k, user, limit);
        UpdatedStated(items, k, items[k].(running := false), user, limit);
        TrimCount(items[k := items[k].(running := false)], k, user, limit);
      }
    case Fail(token, _) =>
      var k := WithToken(items, token);
      if k < |items| {
        var t := Trim(items, k);
        TrimCount(items, k, user, limit);
        UpdatedStated(t.0, t.1, items[k].(state := WAITING, running := false), user, limit);
      }
  }

  lemma {:induction false} StatedAt(items: seq<Item>, k: nat, user: nat, limit: nat)
    requires k < |items| && Stated(items, user, limit)
    ensures items[k].user == user && items[k].state == ACTIVE ==> items[k].maxRemote == limit
  {}

  lemma {:induction false} RetypedStated(items: seq<Item>, k: nat, hasDownload: bool, found: Kind, user: nat,
      limit: nat)
    requires k < |items| && Stated(items, user, limit)
    ensures var r := items[k := Retyped(items, k, hasDownload, found)];
      Count(r, user) == Count(items, user) && Stated(r, user, limit)
  {
    UpdatedStated(items, k, Retyped(items, k, hasDownload, found), user, limit);
  }

  lemma {:induction false} LimitStated(items: seq<Item>, k: nat, l: nat, user: nat, limit: nat)
    requires k < |items| && Stated(items, user, limit) && (items[k].user == user ==> l == limit)
    ensures var r := items[k := items[k].(maxRemote := l)];
      Count(r, user) == Count(items, user) && Stated(r, user, limit)
  {
    UpdatedStated(items, k, items[k].(maxRemote := l), user, limit);
  }

  lemma {:induction false} ConnectedStated(s: State, c: Connection, user: nat, limit: nat)
    requires Stated(s.items, user, limit) && Stating(s, Connect(c), user, limit)
    ensures var r := Connected(s.items, c); Count(r, user) <= Count(s.items, user) && Stated(r, user, limit)
  {
    var items, k := s.items, Find(s.items, c);
    if k < |items| { UpdatedStated(items, k, Activated(items[k], c.mcn), user, limit); }
  }

  /** With normal slots, items of a user that leave the way open are all running and carry the limit. */
  lemma {:induction false} OpenRunning(items: seq<Item>, user: nat, supports: set<nat>, own: nat, limit: nat)
    requires Sound(items, supports, own) && Stated(items, user, limit) && Open(items, user, false)
    ensures RunningNormal(items, user) == Count(items, user)
    ensures HasItem(items, user) <==> Count(items, user) > 0
    ensures items != [] && items[|items| - 1].user == user ==> items[|items| - 1].maxRemote == limit
  {
    forall i | 0 <= i < |items| && items[i].user == user ensures items[i].running && items[i].kind == MCN_NORMAL {
      assert Fine(items[i], supports);
    }
    if items != [] { assert Fine(items[|items| - 1], supports); }
    AllCounted(items, user);
  }

  lemma {:induction false} AllCounted(items: seq<Item>, user: nat)
    requires forall i :: 0 <= i < |items| && items[i].user == user ==> items[i].running && items[i].kind == MCN_NORMAL
    ensures RunningNormal(items, user) == Count(items, user)
    ensures HasItem(items, user) <==> Count(items, user) > 0
  {
    if items != [] {
      var less := items[..|items| - 1];
      forall i | 0 <= i < |less| ensures less[i] == items[i] {}
      AllCounted(less, user);
      assert HasItem(items, user) <==> HasItem(less, user) || items[|items| - 1].user == user;
    }
  }

  /** On one list: room for another item, or someone forbids it. */
  lemma {:induction false} RoomExactly(items: seq<Item>, supports: set<nat>, user: nat, limit: nat, own: nat)
    requires Sound(items, supports, own) && Stated(items, user, limit) && Count(items, user) <= limit && limit > 0
    ensures (AllowNew(items, user, false, own) ==> Count(items, user) < limit) <==>
      (Open(items, user, false) && Count(items, user) == limit ==>
        0 < own <= limit || (items != [] &&
          (items[|items| - 1].user == user || 0 < items[|items| - 1].maxRemote <= limit)))
  {
    AllowNewExactly(items, user, false, own);
    if Open(items, user, false) { OpenRunning(items, user, supports, own, limit); }
    hide Sound, Stated, Count, Open, AllowNew, RunningNormal;
  }

  lemma {:induction false} PlusCount(items: seq<Item>, x: seq<Item>, user: nat, limit: nat)
    requires |x| <= 1 && (x != [] ==> x[0].state != ACTIVE) && Stated(items, user, limit)
    ensures Stated(items + x, user, limit)
    ensures Count(items + x, user) == Count(items, user) + if x != [] && x[0].user == user then 1 else 0
  {
    if x == [] {
      assert items + x == items;
    } else {
      assert x == [x[0]];
      CountPlus(items, x[0], user);
    }
  }

  /** An event takes the user past the limit exactly if it is not heeded. */
  lemma {:induction false} StepWithinExactly(s: State, e: Event, supports: set<nat>, user: nat, limit: nat, own: nat)
    requires Sound(s.items, supports, own) && Possible(s, e, supports) && Stating(s, e, user, limit)
    requires Stated(s.items, user, limit) && Count(s.items, user) <= limit && limit > 0
    ensures Stated(After(s, e, own).items, user, limit)
    ensures Count(After(s, e, own).items, user) <= limit <==> Heeded(s, e, user, limit, own)
  {
    hide Sound, Stated, After, Before, Possible, Stating, Asks, AskedOf, Open, AllowNew, Count;
    BeforeCount(s, e, supports, user, limit);
    FailAsksNothing(s, e, supports, user, own);
    var x := NewItemOf(s, e, user, own);
    PlusCount(Before(s, e), x, user, limit);
    if Asks(s, e, user) {
      AskedSound(s, e, supports, own);
      AskedCount(s, e, user);
      RoomExactly(AskedOf(s, e), supports, user, limit, own);
    }
  }

  lemma {:induction false} FailAsksNothing(s: State, e: Event, supports: set<nat>, user: nat, own: nat)
    requires Sound(s.items, supports, own) && Possible(s, e, supports)
    ensures e.Fail? ==> !Asks(s, e, user)
    ensures Belongs(s, e) && (e.GetDownload? ==> !e.small)
  {
    hide WithToken, OfUser;
    if e.Fail? && WithToken(s.items, e.token) < |s.items| {
      FineAt(s.items, WithToken(s.items, e.token), supports, own);
    }
  }

  lemma {:induction false} AskedCount(s: State, e: Event, user: nat)
    ensures Count(AskedOf(s, e), user) == Count(s.items, user)
  {
    if e.Run? && Find(s.items, e.c) < |s.items| {
      CountUpdated(s.items, Find(s.items, e.c), s.items[Find(s.items, e.c)].(running := true), user);
    }
  }

  lemma {:induction false} AskedSound(s: State, e: Event, supports: set<nat>, own: nat)
    requires Sound(s.items, supports, own) && Possible(s, e, supports)
    ensures Sound(AskedOf(s, e), supports, own)
  {
    hide Sound, Find;
    if e.Run? {
      var k := Find(s.items, e.c);
      if k < |s.items| {
        FineAt(s.items, k, supports, own);
        UpdateSound(s.items, k, s.items[k].(running := true), supports, own);
      }
    }
  }

  /** In every run in which the user states a limit with each connection, the user never has more items
      than that exactly if each wish for one more is heeded. */
  lemma {:induction false} WithinExactly(es: seq<Event>, supports: set<nat>, user: nat, limit: nat, own: nat)
    requires IsRun(State([], 0), es, supports, own) && AlwaysStating(State([], 0), es, user, limit, own) && limit > 0
    ensures AlwaysWithin(State([], 0), es, user, limit, own) <==> AlwaysHeeded(State([], 0), es, user, limit, own)
  {
    RunWithinExactly(State([], 0), es, supports, user, limit, own);
  }

  lemma {:induction false} RunWithinExactly(s: State, es: seq<Event>, supports: set<nat>, user: nat, limit: nat,
      own: nat)
    requires Sound(s.items, supports, own) && Stated(s.items, user, limit) && Count(s.items, user) <= limit && limit > 0
    requires IsRun(s, es, supports, own) && AlwaysStating(s, es, user, limit, own)
    ensures AlwaysWithin(s, es, user, limit, own) <==> AlwaysHeeded(s, es, user, limit, own)
    decreases |es|
  {
    hide Sound, Stated, After, Possible, Stating, Heeded;
    if es != [] {
      StepWithinExactly(s, es[0], supports, user, limit, own);
      StepKeepsSound(s, es[0], supports, own);
      if Count(After(s, es[0], own).items, user) <= limit {
        RunWithinExactly(After(s, es[0], own), es[1..], supports, user, limit, own);
      }
    }
  }

  lemma {:induction false} Link(s: State, e: Event, t: State, es: seq<Event>, supports: set<nat>, user: nat,
      limit: nat, own: nat)
    requires After(s, e, own) == t && Possible(s, e, supports) && Stating(s, e, user, limit)
    requires IsRun(t, es, supports, own) && AlwaysStating(t, es, user, limit, own)
    ensures IsRun(s, [e] + es, supports, own) && AlwaysStating(s, [e] + es, user, limit, own)
    ensures Exec(s, [e] + es, own) == Exec(t, es, own)
  {
    FirstStep(s, e, es, supports, own);
    assert ([e] + es)[1..] == es;
    hide After, Stating;
  }

  /** A user that states a limit of one item gets a second one, because of an item of someone else. */
  lemma {:induction false} RemoteLimitIgnored(own: nat)
    requires own != 1
    ensures var s, c := State([], 0), Connection(0, 7, true);
      var es := [GetDownload(7, false)] +
        ([SetRemote(0, 1)] + ([Connect(c)] + ([GetDownload(8, false)] + ([Run(c, true)] + []))));
      && IsRun(s, es, {7, 8}, own) && AlwaysStating(s, es, 7, 1, own)
      && Count(Exec(s, es, own).items, 7) == 2
  {
    var supports, c := {7, 8}, Connection(0, 7, true);
    var a, b, d := NewItem(0, 7, ANY, false), NewItem(1, 8, ANY, false), Item(0, 7, MCN_NORMAL, ACTIVE, false, true, 1);
    var s0, s1, s2 := State([], 0), State([a], 1), State([a.(maxRemote := 1)], 1);
    var s3, s4 := State([d], 1), State([d, b], 2);
    var s5 := State([d.(running := true), b, NewItem(2, 7, MCN_NORMAL, true)], 3);
    var e0, e1, e2, e3, e4 := GetDownload(7, false), SetRemote(0, 1), Connect(c), GetDownload(8, false), Run(c, true);
    FirstCreated(a, d, b, own);
    SecondCreated(d, b, own);
    assert After(s1, e1, own) == s2 && After(s2, e2, own) == s3;
    hide After, AlwaysStating, IsRun, Count;
    NoEvents(s5, supports, own);
    Link(s4, e4, s5, [], supports, 7, 1, own);
    Link(s3, e3, s4, [e4] + [], supports, 7, 1, own);
    Link(s2, e2, s3, [e3] + ([e4] + []), supports, 7, 1, own);
    Link(s1, e1, s2, [e2] + ([e3] + ([e4] + [])), supports, 7, 1, own);
    Link(s0, e0, s1, [e1] + ([e2] + ([e3] + ([e4] + []))), supports, 7, 1, own);
  }

  lemma {:induction false} NoEvents(s: State, supports: set<nat>, own: nat)
    ensures IsRun(s, [], supports, own) && AlwaysStating(s, [], 7, 1, own) && Exec(s, [], own) == s
  {}

  lemma {:induction false} SecondCreated(d: Item, b: Item, own: nat)
    requires own != 1 && d == Item(0, 7, MCN_NORMAL, ACTIVE, false, true, 1) && b == NewItem(1, 8, ANY, false)
    ensures var last := [d.(running := true), b, NewItem(2, 7, MCN_NORMAL, true)];
      After(State([d, b], 2), Run(Connection(0, 7, true), true), own) == State(last, 3) && Count(last, 7) == 2
  {
    var r, x := d.(running := true), NewItem(2, 7, MCN_NORMAL, true);
    assert [d, b][0 := r] == [r, b] && [r, b][..1] == [r] && [r, b, x][..2] == [r, b] && [r, b] + [x] == [r, b, x];
    assert RunningNormal([r], 7) == Count([r], 7) == Count([r, b], 7) == 1;
    AllowNewExactly([r, b], 7, false, own);
  }

  lemma {:induction false} FirstCreated(a: Item, d: Item, b: Item, own: nat)
    requires a == NewItem(0, 7, ANY, false) && d == Item(0, 7, MCN_NORMAL, ACTIVE, false, true, 1) &&
      b == NewItem(1, 8, ANY, false)
    ensures After(State([], 0), GetDownload(7, false), own) == State([a], 1)
    ensures After(State([d], 1), GetDownload(8, false), own) == State([d, b], 2)
  {
    AllowNewExactly([], 7, false, own);
    AllowNewExactly([d], 8, false, own);
  }
}
