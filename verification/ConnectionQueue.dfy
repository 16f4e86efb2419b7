/** The download connections of a client (connection/ConnectionManager.cpp): the items waiting for or
    holding a connection, and what the connection events do to the list of them. */
module ConnectionQueue {

  datatype Kind = ANY | SMALL | MCN_NORMAL

  datatype Progress = CONNECTING | WAITING | ACTIVE

  /** mcn: several connections to this user are possible.  maxRemote: the limit the user asked for. */
  datatype Item = Item(token: nat, user: nat, kind: Kind, state: Progress, running: bool, mcn: bool, maxRemote: nat)

  /** A connection, as far as it says which item it belongs to. */
  datatype Connection = Connection(token: nat, user: nat, mcn: bool)

  function NewItem(token: nat, user: nat, kind: Kind, mcn: bool): Item {
    Item(token, user, kind, WAITING, false, mcn, 0)
  }

  /** allowNewConnections; a limit of 0 is no limit. */
  predicate AllowMore(item: Item, running: nat, own: nat) {
    (item.maxRemote == 0 || running < item.maxRemote) && (own == 0 || running < own)
  }

  // ---------------------------------------------------------------- finding items

  /** The first item with the token, or the length of the list. */
  function WithToken(items: seq<Item>, token: nat): (k: nat)
    ensures k <= |items| && (k < |items| ==> items[k].token == token)
    ensures forall j :: 0 <= j < k ==> items[j].token != token
  {
    if items == [] || items[0].token == token then 0 else 1 + WithToken(items[1..], token)
  }

  function OfUser(items: seq<Item>, user: nat): (k: nat)
    ensures k <= |items| && (k < |items| ==> items[k].user == user)
    ensures forall j :: 0 <= j < k ==> items[j].user != user
  {
    if items == [] || items[0].user == user then 0 else 1 + OfUser(items[1..], user)
  }

  /** findDownloadUnsafe */
  function Find(items: seq<Item>, c: Connection): (k: nat)
    ensures k <= |items|
  {
    if c.mcn then WithToken(items, c.token) else OfUser(items, c.user)
  }

  /** An item of the same user that is neither active nor for small files, and is not the k-th one. */
  predicate Extra(items: seq<Item>, k: nat, j: nat)
    requires k < |items| && j < |items|
  {
    items[j].user == items[k].user && items[j].kind != SMALL && items[j].state != ACTIVE && j != k
  }

  function FirstExtra(items: seq<Item>, k: nat, from: nat): (j: nat)
    requires k < |items| && from <= |items|
    ensures from <= j <= |items| && (j < |items| ==> Extra(items, k, j))
    ensures forall i :: from <= i < j ==> !Extra(items, k, i)
    decreases |items| - from
  {
    if from == |items| || Extra(items, k, from) then from else FirstExtra(items, k, from + 1)
  }

  // ---------------------------------------------------------------- asking for a new connection

  datatype Scan = Refused | Passed(running: nat, support: bool)

  /** The loop of allowNewMCNUnsafe over the first n items. */
  function ScanFor(items: seq<Item>, n: nat, user: nat, small: bool): Scan
    requires n <= |items|
  {
    if n == 0 then Passed(0, false)
    else match ScanFor(items, n - 1, user, small)
      case Refused => Refused
      case Passed(running, support) =>
        var i := items[n - 1];
        if i.user != user then Passed(running, support)
        else if !i.mcn || (i.kind == MCN_NORMAL && !i.running && !small) || (i.kind == SMALL && small) then Refused
        else Passed(if i.kind == MCN_NORMAL && i.running then running + 1 else running, true)
  }

  /** allowNewMCNUnsafe.  The limits are asked of the last item of the list, whoever it belongs to. */
  predicate AllowNew(items: seq<Item>, user: nat, small: bool, own: nat) {
    match ScanFor(items, |items|, user, small)
    case Refused => false
    case Passed(running, support) => support && !small ==> AllowMore(items[|items| - 1], running, own)
  }

  function RunningNormal(items: seq<Item>, user: nat): nat {
    if items == [] then 0
    else
      var i := items[|items| - 1];
      RunningNormal(items[..|items| - 1], user) + if i.user == user && i.kind == MCN_NORMAL && i.running then 1 else 0
  }

  /** No item of the user stands in the way of another one. */
  predicate Open(items: seq<Item>, user: nat, small: bool) {
    forall i :: 0 <= i < |items| && items[i].user == user ==>
      items[i].mcn && if small then items[i].kind != SMALL else items[i].kind == MCN_NORMAL ==> items[i].running
  }

  predicate HasItem(items: seq<Item>, user: nat) {
    exists i :: 0 <= i < |items| && items[i].user == user
  }

  lemma {:induction false} ScanExactly(items: seq<Item>, n: nat, user: nat, small: bool)
    requires n <= |items|
    ensures ScanFor(items, n, user, small) ==
      if Open(items[..n], user, small) then Passed(RunningNormal(items[..n], user), HasItem(items[..n], user))
        else Refused
  {
    if n > 0 {
      ScanExactly(items, n - 1, user, small);
      var a, b := items[..n - 1], items[..n];
      assert b[..n - 1] == a && b == a + [items[n - 1]];
      hide ScanFor, RunningNormal;
      assert Open(b, user, small) ==> Open(a, user, small) by {
        forall i | 0 <= i < |a| ensures a[i] == b[i] {}
      }
      assert HasItem(b, user) <==> HasItem(a, user) || items[n - 1].user == user by {
        if i :| 0 <= i < |a| && a[i].user == user { assert b[i].user == user; }
        assert b[n - 1] == items[n - 1];
      }
    }
  }

  /** What allowNewMCNUnsafe decides, without its loop. */
  lemma {:induction false} AllowNewExactly(items: seq<Item>, user: nat, small: bool, own: nat)
    ensures AllowNew(items, user, small, own) <==>
      && Open(items, user, small)
      && (HasItem(items, user) && !small ==> AllowMore(items[|items| - 1], RunningNormal(items, user), own))
  {
    ScanExactly(items, |items|, user, small);
    assert items[..|items|] == items;
  }

  // ---------------------------------------------------------------- changes to the list

  function Without(items: seq<Item>, k: nat): seq<Item>
    requires k < |items|
  {
    items[..k] + items[k + 1..]
  }

  /** removeExtraMCNUnsafe for the k-th item: the new list and the place of that item in it. */
  function Trim(items: seq<Item>, k: nat): (r: (seq<Item>, nat))
    requires k < |items|
    ensures r.1 < |r.0| && r.0[r.1] == items[k]
  {
    if !items[k].mcn || items[k].kind != MCN_NORMAL then (items, k)
    else
      var j := FirstExtra(items, k, 0);
      if j == |items| then (items, k) else (Without(items, j), if j < k then k - 1 else k)
  }

  /** The k-th item is the user's only one. */
  predicate Alone(items: seq<Item>, k: nat)
    requires k < |items|
  {
    forall j :: 0 <= j < |items| && j != k ==> items[j].user != items[k].user
  }

  /** The beginning of attemptDownloadUnsafe.  hasDownload: there is something of the item's kind;
      found: the kind of what is there.  Whether the user has another item for small files is asked of
      the item itself in the source, which never is one at that point. */
  function Retyped(items: seq<Item>, k: nat, hasDownload: bool, found: Kind): Item
    requires k < |items|
  {
    if !hasDownload && items[k].kind == SMALL && Alone(items, k) then items[k].(kind := ANY)
    else if items[k].kind == ANY && found == SMALL then items[k].(kind := SMALL)
    else items[k]
  }

  /** addDownloadConnection on the item found. */
  function Activated(item: Item, mcn: bool): Item {
    if item.state == ACTIVE then item
    else if !mcn then item.(state := ACTIVE)
    else item.(state := ACTIVE, kind := if item.kind == SMALL then SMALL else MCN_NORMAL, mcn := true)
  }

  function Connected(items: seq<Item>, c: Connection): seq<Item> {
    var k := Find(items, c);
    if k == |items| then items else items[k := Activated(items[k], c.mcn)]
  }

  /** onIdle */
  function Idled(items: seq<Item>, c: Connection): seq<Item> {
    var k := Find(items, c);
    if k == |items| || !items[k].running then items
    else Trim(items[k := items[k].(running := false)], k).0
  }

  /** failDownload up to where it may ask for another connection. */
  function Failed(items: seq<Item>, token: nat): seq<Item> {
    var k := WithToken(items, token);
    if k == |items| then items
    else
      var t := Trim(items, k);
      t.0[t.1 := items[k].(state := WAITING, running := false)]
  }

  /** The failed item was for small files and never used, and the user may have another connection. */
  predicate FailedAsksForNew(items: seq<Item>, token: nat, own: nat) {
    var k := WithToken(items, token);
    && k < |items| && items[k].mcn && items[k].kind == SMALL && items[k].state == ACTIVE
    && AllowNew(items, items[k].user, false, own)
  }

  /** onDownloadRunning up to where it may ask for another connection. */
  function Running(items: seq<Item>, c: Connection): seq<Item> {
    var k := Find(items, c);
    if k == |items| then items else items[k := items[k].(running := true)]
  }

  predicate RunningAsksForNew(items: seq<Item>, c: Connection, own: nat) {
    var k := Find(items, c);
    k < |items| && !items[k].running && items[k].mcn && AllowNew(Running(items, c), items[k].user, false, own)
  }
}
