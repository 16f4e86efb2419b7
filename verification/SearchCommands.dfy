/** Sending a search with file extensions to a hub (hub/AdcHub.cpp, handleSearchExtensions and
    sendSearch): two forms of the search, each for the users that understand it. */
module SearchCommands {

  import opened Ordering
  import opened SearchGroups
  import opened SearchTable

  const ASCH := "ASCH"
  const SEGA := "SEGA"
  const TCP4 := "TCP4"
  const NAT0 := "NAT0"

  datatype Kind = Broadcast | Featured

  datatype Feature = Required(name: string) | Banned(name: string)

  datatype Param = EX(ext: string) | RX(ext: string) | GR(mask: bv8) | Other(text: string)

  datatype Command = Command(kind: Kind, features: seq<Feature>, params: seq<Param>) {
    /** The hub passes a feature command on to users that have what is required and nothing banned. */
    predicate Reaches(supports: set<string>) {
      kind.Featured? ==> forall k :: 0 <= k < |features| ==> features[k].Required? == (features[k].name in supports)
    }

    function With(more: seq<Feature>): Command { Command(Featured, features + more, params) }
  }

  // ---------------------------------------------------------------- sorting

  function Insert(x: string, s: seq<string>): seq<string> {
    if s == [] || !Less(s[0], x) then [x] + s else [s[0]] + Insert(x, s[1..])
  }

  /** std::sort */
  function Sort(s: seq<string>): seq<string> {
    if s == [] then [] else Insert(s[0], Sort(s[1..]))
  }

  lemma {:induction false} InsertSorted(x: string, s: seq<string>, bound: string)
    requires Sorted(s)
    ensures Sorted(Insert(x, s)) && multiset(Insert(x, s)) == multiset{x} + multiset(s)
    ensures AtLeast(s, bound) && !Less(x, bound) ==> AtLeast(Insert(x, s), bound)
  {
    if s != [] {
      SortedTail(s);
      hide Less;
      LessTotal(s[0], x);
      if Less(s[0], x) {
        InsertSorted(x, s[1..], s[0]);
        InsertSorted(x, s[1..], bound);
        LessAsymmetric(s[0], x);
        assert s == [s[0]] + s[1..];
      } else {
        forall y | y in s ensures !Less(y, x) {
          LessTotal(s[0], x);
          if Less(y, x) { LessTransitive2(y, x, s[0]); }
        }
      }
    }
  }

  lemma {:induction false} LessTransitive2(a: string, b: string, c: string)
    requires Less(a, b) && !Less(c, b)
    ensures Less(a, c)
  {
    hide Less;
    LessTotal(b, c);
    if Less(b, c) { LessTransitive(a, b, c); }
  }

  lemma {:induction false} SortSorts(s: seq<string>)
    ensures Sorted(Sort(s)) && multiset(Sort(s)) == multiset(s)
  {
    if s != [] {
      SortSorts(s[1..]);
      InsertSorted(s[0], Sort(s[1..]), "");
      assert s == [s[0]] + s[1..];
    }
  }

  // ---------------------------------------------------------------- the sent commands

  function Adds(exts: seq<string>): seq<Param> {
    seq(|exts|, i requires 0 <= i < |exts| => EX(exts[i]))
  }

  function Removes(exts: seq<string>): seq<Param> {
    seq(|exts|, i requires 0 <= i < |exts| => RX(exts[i]))
  }

  /** appendGroupInfo */
  function GroupInfo(g: Grouping): seq<Param> {
    Adds(g.exts) + [GR(g.mask)] + Removes(g.excluded)
  }

  function GroupingOf(exts: seq<string>): Grouping {
    Grouped(SEARCH_EXTENSIONS, 0, Grouping(Sort(exts), 0, []))
  }

  /** sendSearch */
  function Variants(active: bool, c: Command): seq<Command> {
    if active then [c] else [c.With([Required(TCP4), Banned(NAT0)]), c.With([Required(NAT0)])]
  }

  /** The command for users that know the groups. */
  function ForGroups(c: Command, g: Grouping): Command {
    Command(Featured, c.features + [Required(SEGA)], c.params + GroupInfo(g))
  }

  function ForOthers(c: Command, exts: seq<string>): Command {
    Command(Featured, c.features + [Banned(SEGA)], c.params + Adds(exts))
  }

  /** All commands of one search, in order. */
  function Commands(active: bool, c: Command, exts: seq<string>): seq<Command> {
    if |exts| <= 2 then [c.(params := c.params + Adds(exts))]
    else if GroupingOf(exts).mask == 0 then [c]
    else Variants(active, ForGroups(c, GroupingOf(exts))) + [ForOthers(c, exts)]
  }

  function DirectInfo(exts: seq<string>, hasSega: bool): seq<Param> {
    if |exts| <= 2 then Adds(exts)
    else if GroupingOf(exts).mask == 0 then []
    else if hasSega then GroupInfo(GroupingOf(exts)) else Adds(exts)
  }

  datatype Direct = NoUser | User(hasSega: bool)

  class AdcHub {
    var active: bool
    var sent: seq<Command>

    method SendHooked(c: Command)
      modifies this`sent
      ensures sent == old(sent) + [c]
    {
      sent := sent + [c];
    }

    method SendSearch(c: Command)
      modifies this`sent
      ensures sent == old(sent) + Variants(active, c)
    {
      if active {
        SendHooked(c);
      } else {
        SendHooked(c.With([Required(TCP4), Banned(NAT0)]));
        SendHooked(c.With([Required(NAT0)]));
      }
    }

    /** Returns the given command as it is to be sent afterwards. */
    method HandleSearchExtensions(c: Command, exts: seq<string>, direct: Direct) returns (r: Command)
      modifies this`sent
      ensures direct.NoUser? ==> sent + [r] == old(sent) + Commands(active, c, exts)
      ensures direct.User? ==> sent == old(sent) && r == c.(params := c.params + DirectInfo(exts, direct.hasSega))
    {
      if |exts| <= 2 {
        return c.(params := c.params + Adds(exts));
      }
      hide Grouped, Sort;
      var group, rest, excluded := GroupExtensions(SEARCH_EXTENSIONS, Sort(exts));
      if group == 0 {
        return c;
      }
      var info := Adds(rest) + [GR(group)] + Removes(excluded);
      if direct.User? {
        return c.(params := c.params + if direct.hasSega then info else Adds(exts));
      }
      SendSearch(Command(Featured, c.features + [Required(SEGA)], c.params + info));
      return Command(Featured, c.features + [Banned(SEGA)], c.params + Adds(exts));
    }

    /** A search to the whole hub, or only to users with the ASCH extension. */
    method Search(params: seq<Param>, aschOnly: bool, exts: seq<string>)
      modifies this`sent
      ensures sent == old(sent) + Commands(active, Start(params, aschOnly), exts)
    {
      var c := Command(Broadcast, [], params);
      if aschOnly {
        c := c.With([Required(ASCH)]);
      }
      assert c == Start(params, aschOnly);
      c := HandleSearchExtensions(c, exts, NoUser);
      SendHooked(c);
    }
  }

  function Start(params: seq<Param>, aschOnly: bool): Command {
    if aschOnly then Command(Featured, [Required(ASCH)], params) else Command(Broadcast, [], params)
  }

  // ---------------------------------------------------------------- who receives what

  function Received(cs: seq<Command>, supports: set<string>): seq<Command> {
    if cs == [] then []
    else
      var before, c := Received(cs[..|cs| - 1], supports), cs[|cs| - 1];
      if c.Reaches(supports) then before + [c] else before
  }

  /** Whatever the user supports, at most one of the commands arrives: the grouped form for users with
      SEGA, the plain form for others.  In passive mode, those with SEGA also need TCP4 or NAT0. */
  lemma {:induction false} OneFormEach(active: bool, params: seq<Param>, aschOnly: bool, exts: seq<string>,
      supports: set<string>)
    requires |exts| > 2 && GroupingOf(exts).mask != 0
    ensures var c := Start(params, aschOnly);
      var g := ForGroups(c, GroupingOf(exts));
      Received(Commands(active, c, exts), supports) ==
        if aschOnly && ASCH !in supports then []
        else if SEGA !in supports then [ForOthers(c, exts)]
        else if active then [g]
        else if NAT0 in supports then [g.With([Required(NAT0)])]
        else if TCP4 in supports then [g.With([Required(TCP4), Banned(NAT0)])]
        else []
  {
    var c := Start(params, aschOnly);
    var g, o := ForGroups(c, GroupingOf(exts)), ForOthers(c, exts);
    var toActive, toNat := g.With([Required(TCP4), Banned(NAT0)]), g.With([Required(NAT0)]);
    WhoIsReached(c, aschOnly, g, o, supports);
    hide GroupingOf, Command.Reaches, Received, ForGroups, ForOthers, Start, Command.With;
    var none: seq<Command> := [];
    NothingReceived(supports);
    if active {
      assert Commands(active, c, exts) == none + [g] + [o];
      ReceivedLast(none + [g], o, supports);
      ReceivedLast(none, g, supports);
    } else {
      assert Commands(active, c, exts) == none + [toActive] + [toNat] + [o];
      ReceivedLast(none + [toActive] + [toNat], o, supports);
      ReceivedLast(none + [toActive], toNat, supports);
      ReceivedLast(none, toActive, supports);
    }
  }

  lemma {:induction false} NothingReceived(supports: set<string>)
    ensures Received([], supports) == []
  {}

  lemma {:induction false} WhoIsReached(c: Command, aschOnly: bool, g: Command, o: Command, supports: set<string>)
    requires c.features == if aschOnly then [Required(ASCH)] else []
    requires c.kind == if aschOnly then Featured else Broadcast
    requires g.kind == o.kind == Featured
    requires g.features == c.features + [Required(SEGA)] && o.features == c.features + [Banned(SEGA)]
    ensures var ok := !aschOnly || ASCH in supports;
      && (o.Reaches(supports) <==> ok && SEGA !in supports)
      && (g.Reaches(supports) <==> ok && SEGA in supports)
      && (g.With([Required(NAT0)]).Reaches(supports) <==> ok && SEGA in supports && NAT0 in supports)
      && (g.With([Required(TCP4), Banned(NAT0)]).Reaches(supports) <==>
            ok && SEGA in supports && TCP4 in supports && NAT0 !in supports)
  {
    hide ASCH, SEGA, TCP4, NAT0;
    var start := Command(Featured, [], c.params);
    Restricted(start, Required(ASCH), supports);
    SameFeatures(c, if aschOnly then start.With([Required(ASCH)]) else start, supports);
    Restricted(c, Required(SEGA), supports);
    Restricted(c, Banned(SEGA), supports);
    SameFeatures(g, c.With([Required(SEGA)]), supports);
    SameFeatures(o, c.With([Banned(SEGA)]), supports);
    Restricted(g, Required(NAT0), supports);
    Restricted(g, Required(TCP4), supports);
    Restricted(g.With([Required(TCP4)]), Banned(NAT0), supports);
    SameFeatures(g.With([Required(TCP4), Banned(NAT0)]), g.With([Required(TCP4)]).With([Banned(NAT0)]), supports);
    hide Command.Reaches;
  }

  lemma {:induction false} SameFeatures(c: Command, d: Command, supports: set<string>)
    requires c.features == d.features && (c.kind == d.kind || c.features == [])
    ensures c.Reaches(supports) == d.Reaches(supports)
  {}

  lemma {:induction false} ReceivedLast(cs: seq<Command>, c: Command, supports: set<string>)
    ensures Received(cs + [c], supports) == if c.Reaches(supports) then Received(cs, supports) + [c]
      else Received(cs, supports)
  {
    assert (cs + [c])[..|cs|] == cs;
  }

  lemma {:induction false} Restricted(c: Command, f: Feature, supports: set<string>)
    requires c.kind.Featured? || c.features == []
    ensures c.With([f]).Reaches(supports) <==> c.Reaches(supports) && f.Required? == (f.name in supports)
  {
    var all := c.With([f]).features;
    assert all[|all| - 1] == f;
    assert forall k :: 0 <= k < |c.features| ==> all[k] == c.features[k];
  }
}
