/** The connection manager (connection/ConnectionManager.cpp) as it goes through its list of download
    items.  Each method is held to the step of `ConnectionRuns` that it carries out. */
module Connections {

  import opened ConnectionQueue
  import opened ConnectionRuns

  class ConnectionManager {
    var downloads: seq<Item>
    var nextToken: nat
    const slotsPerUser: nat

    constructor (slotsPerUser: nat)
      ensures Now() == State([], 0) && this.slotsPerUser == slotsPerUser
    {
      downloads, nextToken := [], 0;
      this.slotsPerUser := slotsPerUser;
    }

    function Now(): State
      reads this
    {
      State(downloads, nextToken)
    }

    method FindDownload(c: Connection) returns (k: nat)
      ensures k == Find(downloads, c)
    {
      k := 0;
      while k < |downloads|
        invariant k <= |downloads|
        invariant Find(downloads, c) == k + Find(downloads[k..], c)
      {
        if (c.mcn && downloads[k].token == c.token) || (!c.mcn && downloads[k].user == c.user) {
          return;
        }
        k := k + 1;
      }
    }

    method FindToken(token: nat) returns (k: nat)
      ensures k == WithToken(downloads, token)
    {
      k := FindDownload(Connection(token, 0, true));
    }

    method AllowNewMCN(user: nat, small: bool) returns (r: bool)
      ensures r == AllowNew(downloads, user, small, slotsPerUser)
    {
      var runningNormal := 0;
      var supportMcn := false;
      for n := 0 to |downloads|
        invariant ScanFor(downloads, n, user, small) == Passed(runningNormal, supportMcn)
        invariant supportMcn ==> n > 0
      {
        var cqi := downloads[n];
        if cqi.user != user {
          continue;
        }
        if !cqi.mcn {
          RefusedStays(downloads, n + 1, user, small);
          return false;
        }
        supportMcn := true;
        if cqi.kind == MCN_NORMAL {
          if !cqi.running {
            if !small {
              RefusedStays(downloads, n + 1, user, small);
              return false;
            }
          } else {
            runningNormal := runningNormal + 1;
          }
        } else if cqi.kind == SMALL {
          if small {
            RefusedStays(downloads, n + 1, user, small);
            return false;
          }
        }
      }
      if supportMcn && !small && !AllowMore(downloads[|downloads| - 1], runningNormal, slotsPerUser) {
        return false;
      }
      r := true;
    }

    /** A new waiting item at the end. */
    method GetCQI(user: nat) returns (k: nat)
      modifies this
      ensures Now() == old(Now()).Plus(user, ANY, false) && k == |downloads| - 1
    {
      downloads := downloads + [NewItem(nextToken, user, ANY, false)];
      nextToken := nextToken + 1;
      k := |downloads| - 1;
    }

    method PutCQI(k: nat)
      requires k < |downloads|
      modifies this
      ensures downloads == Without(old(downloads), k) && nextToken == old(nextToken)
    {
      downloads := downloads[..k] + downloads[k + 1..];
    }

    method GetDownloadConnection(user: nat, smallSlot: bool, idleServed: bool)
      modifies this
      ensures Now() == if idleServed then old(Now()) else After(old(Now()), GetDownload(user, smallSlot), slotsPerUser)
    {
      if idleServed {
        return;
      }
      var allowed := AllowNewMCN(user, smallSlot);
      if !allowed {
        return;
      }
      var k := GetCQI(user);
      if smallSlot {
        downloads := downloads[k := downloads[k].(kind := SMALL)];
      }
    }

    /** Item k before a connection attempt, after asking the queue. */
    method AttemptDownload(k: nat, hasDownload: bool, found: Kind)
      requires k < |downloads|
      modifies this
      ensures downloads == old(downloads)[k := Retyped(old(downloads), k, hasDownload, found)] &&
        nextToken == old(nextToken)
    {
      var cqi := downloads[k];
      if !hasDownload && cqi.kind == SMALL && Alone(downloads, k) {
        downloads := downloads[k := cqi.(kind := ANY)];
      } else if cqi.kind == ANY && found == SMALL &&
        !(exists j | 0 <= j < |downloads| :: downloads[j].user == cqi.user && cqi.kind == SMALL) {
        downloads := downloads[k := cqi.(kind := SMALL)];
      }
    }

    /** Returns whether the connection is passed on to the download manager. */
    method AddDownloadConnection(c: Connection) returns (addConn: bool)
      modifies this
      ensures Now() == After(old(Now()), Connect(c), slotsPerUser)
      ensures addConn <==> var k := Find(old(downloads), c); k < |old(downloads)| && old(downloads)[k].state != ACTIVE
    {
      addConn := false;
      var k := FindDownload(c);
      if k < |downloads| && downloads[k].state != ACTIVE {
        downloads := downloads[k := downloads[k].(state := ACTIVE)];
        if c.mcn {
          if downloads[k].kind != SMALL {
            downloads := downloads[k := downloads[k].(kind := MCN_NORMAL)];
          }
          downloads := downloads[k := downloads[k].(mcn := true)];
        }
        addConn := true;
      }
    }

    method CreateNewMCN(user: nat, hasDownload: bool)
      modifies this
      ensures Now() == if hasDownload then old(Now()).Plus(user, MCN_NORMAL, true) else old(Now())
    {
      if !hasDownload {
        return;
      }
      var k := GetCQI(user);
      downloads := downloads[k := downloads[k].(kind := MCN_NORMAL)];
      downloads := downloads[k := downloads[k].(mcn := true)];
    }

    method OnDownloadRunning(c: Connection, hasDownload: bool)
      modifies this
      ensures Now() == After(old(Now()), Run(c, hasDownload), slotsPerUser)
    {
      hide AllowNew, Find;
      var k := FindDownload(c);
      if k == |downloads| || downloads[k].running {
        assert k < |downloads| ==> downloads[k := downloads[k].(running := true)] == downloads;
        return;
      }
      downloads := downloads[k := downloads[k].(running := true)];
      if !downloads[k].mcn {
        return;
      }
      var allowed := AllowNewMCN(downloads[k].user, false);
      if !allowed {
        return;
      }
      CreateNewMCN(c.user, hasDownload);
    }

    /** Removes a waiting item of the user of item k, which then is at place r. */
    method RemoveExtraMCN(k: nat) returns (r: nat)
      requires k < |downloads|
      modifies this
      ensures (downloads, r) == Trim(old(downloads), k) && nextToken == old(nextToken)
    {
      r := k;
      if !downloads[k].mcn {
        return;
      }
      if downloads[k].kind != MCN_NORMAL {
        return;
      }
      var j := 0;
      while j < |downloads| && !Extra(downloads, k, j)
        invariant j <= |downloads| && FirstExtra(downloads, k, 0) == FirstExtra(downloads, k, j)
      {
        j := j + 1;
      }
      if j < |downloads| {
        PutCQI(j);
        r := if j < k then k - 1 else k;
      }
    }

    method OnIdle(c: Connection)
      modifies this
      ensures Now() == After(old(Now()), Idle(c), slotsPerUser)
    {
      var k := FindDownload(c);
      if k == |downloads| || !downloads[k].running {
        return;
      }
      downloads := downloads[k := downloads[k].(running := false)];
      var _ := RemoveExtraMCN(k);
    }

    method FailDownload(token: nat, hasDownload: bool)
      modifies this
      ensures Now() == After(old(Now()), Fail(token, hasDownload), slotsPerUser)
    {
      hide AllowNew, FirstExtra, WithToken;
      var k := FindToken(token);
      if k == |downloads| {
        return;
      }
      var cqi := downloads[k];
      var mcnUser := false;
      if cqi.mcn {
        k := RemoveExtraMCN(k);
        if cqi.kind == SMALL && cqi.state == ACTIVE {
          mcnUser := AllowNewMCN(cqi.user, false);
        }
      }
      downloads := downloads[k := downloads[k].(state := WAITING)];
      downloads := downloads[k := downloads[k].(running := false)];
      if mcnUser {
        CreateNewMCN(cqi.user, hasDownload);
      }
    }
  }

  lemma {:induction false} RefusedStays(items: seq<Item>, n: nat, user: nat, small: bool)
    requires n <= |items| && ScanFor(items, n, user, small).Refused?
    ensures ScanFor(items, |items|, user, small).Refused?
    decreases |items| - n
  {
    if n < |items| { RefusedStays(items, n + 1, user, small); }
  }
}
