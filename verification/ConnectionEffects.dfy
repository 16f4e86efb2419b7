/** What the connection events do to which item (connection/ConnectionManager.cpp), told field by field. */
module ConnectionEffects {

  import opened ConnectionQueue
  import opened ConnectionRuns

  /** The item a connection belongs to: the first with its token, or, without several connections, the first
      of its user. */
  ghost predicate Meant(items: seq<Item>, c: Connection, k: nat) {
    && k < |items|
    && if c.mcn then items[k].token == c.token && forall j :: 0 <= j < k ==> items[j].token != c.token
       else items[k].user == c.user && forall j :: 0 <= j < k ==> items[j].user != c.user
  }

  ghost predicate Named(items: seq<Item>, token: nat, k: nat) {
    k < |items| && items[k].token == token && forall j :: 0 <= j < k ==> items[j].token != token
  }

  lemma {:induction false} MeantExactly(items: seq<Item>, c: Connection, k: nat)
    ensures Meant(items, c, k) <==> k == Find(items, c) && k < |items|
  {}

  lemma {:induction false} NamedExactly(items: seq<Item>, token: nat, k: nat)
    ensures Named(items, token, k) <==> k == WithToken(items, token) && k < |items|
  {}

  /** Everything but the k-th item is as it was. */
  ghost predicate OnlyAt(was: seq<Item>, now: seq<Item>, k: nat) {
    |now| == |was| && k < |was| && forall j :: 0 <= j < |was| && j != k ==> now[j] == was[j]
  }

  /** Of the item only these may differ. */
  ghost predicate SameItem(was: Item, now: Item) {
    now.token == was.token && now.user == was.user && now.maxRemote == was.maxRemote
  }

  // ---------------------------------------------------------------- a connection

  /** A connection makes its item active, unless it is; with several connections, and for normal files unless
      it was for small ones.  A connection of no item changes nothing. */
  lemma {:induction false} ConnectEffect(s: State, c: Connection, k: nat, own: nat)
    ensures Meant(s.items, c, k) ==>
      var was, r := s.items[k], After(s, Connect(c), own);
      && r.next == s.next && OnlyAt(s.items, r.items, k) && SameItem(was, r.items[k])
      && r.items[k].state == ACTIVE && r.items[k].running == was.running
      && (was.state == ACTIVE || !c.mcn ==> r.items[k].kind == was.kind && r.items[k].mcn == was.mcn)
      && (was.state != ACTIVE && c.mcn ==>
        r.items[k].mcn && r.items[k].kind == if was.kind == SMALL then SMALL else MCN_NORMAL)
    ensures (forall j: nat :: !Meant(s.items, c, j)) ==> After(s, Connect(c), own) == s
  {
    MeantExactly(s.items, c, k);
    MeantExactly(s.items, c, Find(s.items, c));
    hide Meant, Find;
  }

  /** A running download marks its item.  A new one for normal files is created exactly if the item was not
      marked and supports several connections, another one is allowed then, and there is something to
      download. */
  lemma {:induction false} RunEffect(s: State, c: Connection, hasDownload: bool, k: nat, own: nat)
    requires Meant(s.items, c, k) && s.items[k].user == c.user
    ensures var was, r := s.items[k], After(s, Run(c, hasDownload), own);
      && var marked := r.items[..|s.items|];
      && |r.items| >= |s.items| && OnlyAt(s.items, marked, k) && marked[k] == was.(running := true)
      && if hasDownload && !was.running && was.mcn && AllowNew(marked, c.user, false, own) then
           && r.items == marked + [Item(s.next, c.user, MCN_NORMAL, WAITING, false, true, 0)] && r.next == s.next + 1
         else r.items == marked && r.next == s.next
  {
    MeantExactly(s.items, c, k);
    hide Meant, Find, AllowNew;
    var marked := s.items[k := s.items[k].(running := true)];
    assert (marked + [NewItem(s.next, c.user, MCN_NORMAL, true)])[..|marked|] == marked && marked[..|marked|] == marked;
  }

  // ---------------------------------------------------------------- the extra item

  /** The j-th item waits for a normal connection to the user of the k-th, which is another one. */
  ghost predicate WaitsBeside(items: seq<Item>, k: nat, j: nat) {
    && k < |items| && j < |items| && j != k && items[j].user == items[k].user
    && items[j].kind != SMALL && (items[j].state == WAITING || items[j].state == CONNECTING)
  }

  /** `now` is `was` without the first item that waits beside the k-th, if the k-th is one of several
      connections and for normal files; the k-th became x. */
  ghost predicate Trimmed(was: seq<Item>, now: seq<Item>, k: nat, x: Item) {
    k < |was| &&
    if was[k].mcn && was[k].kind == MCN_NORMAL && exists j: nat :: WaitsBeside(was, k, j) then
      exists j: nat :: WaitsBeside(was, k, j) && (forall i :: 0 <= i < j ==> !WaitsBeside(was, k, i)) &&
        now == was[k := x][..j] + was[k := x][j + 1..]
    else now == was[k := x]
  }

  lemma {:induction false} ExtraExactly(items: seq<Item>, k: nat, j: nat)
    requires k < |items| && j < |items|
    ensures Extra(items, k, j) <==> WaitsBeside(items, k, j)
  {}

  lemma {:induction false} TrimExactly(items: seq<Item>, k: nat, x: Item)
    requires k < |items|
    ensures var t := Trim(items, k); Trimmed(items, t.0[t.1 := x], k, x)
  {
    var t := Trim(items, k);
    forall j: nat | j < |items| ensures Extra(items, k, j) <==> WaitsBeside(items, k, j) { ExtraExactly(items, k, j); }
    hide Extra;
    assert forall j: nat :: WaitsBeside(items, k, j) ==> j < |items| && j != k;
    var j := FirstExtra(items, k, 0);
    if j < |items| {
      assert WaitsBeside(items, k, j);
      hide WaitsBeside;
      assert Without(items, j)[if j < k then k - 1 else k := x] == items[k := x][..j] + items[k := x][j + 1..];
    }
  }

  /** An idle connection of a marked item takes the mark away, and of another item that waits for the user the
      item itself. */
  lemma {:induction false} IdleEffect(s: State, c: Connection, k: nat, own: nat)
    requires Meant(s.items, c, k)
    ensures var was, r := s.items[k], After(s, Idle(c), own);
      && r.next == s.next
      && if was.running then Trimmed(s.items[k := was.(running := false)], r.items, k, was.(running := false))
         else r.items == s.items
  {
    MeantExactly(s.items, c, k);
    var marked := s.items[k := s.items[k].(running := false)];
    TrimExactly(marked, k, marked[k]);
    hide Meant, Find, Trim, Trimmed;
    assert s.items[k].running ==> Trim(marked, k).0[Trim(marked, k).1 := marked[k]] == Trim(marked, k).0;
  }

  /** A failed item waits again, without its mark, and the item that waits beside it goes.  A new one for
      normal files is created exactly if the item was an active one for small files that supports several
      connections, another one is allowed, and there is something to download. */
  lemma {:induction false} FailEffect(s: State, token: nat, hasDownload: bool, k: nat,
      own: nat) returns (now: seq<Item>)
    requires Named(s.items, token, k)
    ensures var was, r := s.items[k], After(s, Fail(token, hasDownload), own);
      && Trimmed(s.items, now, k, was.(state := WAITING, running := false))
      && var unused := was.mcn && was.kind == SMALL && was.state == ACTIVE;
      if hasDownload && unused && AllowNew(s.items, was.user, false, own) then
           r.items == now + [Item(s.next, was.user, MCN_NORMAL, WAITING, false, true, 0)] && r.next == s.next + 1
         else r.items == now && r.next == s.next
  {
    NamedExactly(s.items, token, k);
    now := Failed(s.items, token);
    TrimExactly(s.items, k, s.items[k].(state := WAITING, running := false));
    hide Named, WithToken, Trim, Trimmed, AllowNew;
  }

  // ---------------------------------------------------------------- requests

  ghost predicate OnlyItem(items: seq<Item>, k: nat)
    requires k < |items|
  {
    forall j :: 0 <= j < |items| && items[j].user == items[k].user ==> j == k
  }

  /** A request creates a waiting item of its kind exactly if allowed, and changes nothing else. */
  lemma {:induction false} RequestEffect(s: State, user: nat, small: bool, own: nat)
    ensures var r := After(s, GetDownload(user, small), own);
      if AllowNew(s.items, user, small, own) then
        && r.items == s.items + [Item(s.next, user, if small then SMALL else ANY, WAITING, false, false, 0)]
        && r.next == s.next + 1
      else r == s
  {
    hide AllowNew;
  }

  /** Before an attempt an item for small files is made one for any, if there is nothing for it and the user
      has no other item; and one for any files is made one for small ones if such a file is found. */
  lemma {:induction false} AttemptEffect(s: State, token: nat, hasDownload: bool, found: Kind, k: nat, own: nat)
    requires Named(s.items, token, k)
    ensures var was, r := s.items[k], After(s, Retype(token, hasDownload, found), own);
      && r.next == s.next && OnlyAt(s.items, r.items, k)
      && r.items[k] == was.(kind := r.items[k].kind)
      && r.items[k].kind ==
        if was.kind == SMALL && !hasDownload && OnlyItem(s.items, k) then ANY
        else if was.kind == ANY && found == SMALL then SMALL
        else was.kind
  {
    NamedExactly(s.items, token, k);
    hide Named, WithToken;
  }
}
