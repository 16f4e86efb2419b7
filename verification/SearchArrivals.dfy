/** What arrives of a search (hub/AdcHub.cpp, handleSearchExtensions, read by search/SearchQuery.cpp): who
    gets which parameters, for any list of extensions. */
module SearchArrivals {

  import opened Ordering
  import opened SearchCommands
  import opened SearchGroups
  import opened SearchReceiver
  import opened SearchSelection
  import opened SearchTable

  /** Some group is used: at most two of its extensions have to be taken away. */
  ghost predicate GroupFound(exts: seq<string>) {
    exists k :: 0 <= k < |SEARCH_EXTENSIONS| && Cheap(exts, SEARCH_EXTENSIONS[k])
  }

  /** The extension is listed twice, and a group that has it is used. */
  ghost predicate Repeated(exts: seq<string>, x: string) {
    && Count(exts, x) > 1
    && exists k :: 0 <= k < |SEARCH_EXTENSIONS| && x in SEARCH_EXTENSIONS[k] && Cheap(exts, SEARCH_EXTENSIONS[k])
  }

  predicate NamesGroups(params: seq<Param>) {
    exists i :: 0 <= i < |params| && params[i].GR?
  }

  /** The parameters begin with the given ones and ask for these extensions: with groups, where repeated
      ones get lost, or one by one. */
  ghost predicate AskFor(params: seq<Param>, given: seq<Param>, exts: seq<string>, grouped: bool) {
    && given <= params && (NamesGroups(params) <==> grouped)
    && if grouped then forall x :: Read(params).Asks(x) <==> x in exts && x != "" && !Repeated(exts, x)
       else Read(params) == Lists(NonEmpty(exts), [])
  }

  /** More than two extensions are sent only if some group is used. */
  ghost function Sent(exts: seq<string>): seq<string> {
    if |exts| <= 2 || GroupFound(exts) then exts else []
  }

  // ---------------------------------------------------------------- the two forms

  lemma {:induction false} FoundExactly(exts: seq<string>)
    ensures GroupingOf(exts).mask != 0 <==> GroupFound(exts)
  {
    var table, given := SEARCH_EXTENSIONS, Sort(exts);
    TableIsGood();
    SortSorts(exts);
    hide SEARCH_EXTENSIONS, GoodTable, Grouped, Sort, Sorted, Cheap;
    NothingSelectedExactly(table, given);
    forall k | 0 <= k < |table| ensures Cheap(given, table[k]) <==> Cheap(exts, table[k])
    {
      SameCheap(given, exts, table[k]);
    }
  }

  lemma {:induction false} SameCheap(s: seq<string>, t: seq<string>, def: seq<string>)
    requires multiset(s) == multiset(t)
    ensures Cheap(s, def) <==> Cheap(t, def)
  {
    SameCost(s, t, def);
  }

  /** An extension is in a group of the mask exactly if it is in a group that is used. */
  lemma {:induction false} CoveredExactly(exts: seq<string>, x: string)
    ensures Covered(SEARCH_EXTENSIONS, GroupingOf(exts).mask, x) <==>
      exists k :: 0 <= k < |SEARCH_EXTENSIONS| && x in SEARCH_EXTENSIONS[k] && Cheap(exts, SEARCH_EXTENSIONS[k])
  {
    var table, given := SEARCH_EXTENSIONS, Sort(exts);
    TableIsGood();
    TableIsBig();
    SortSorts(exts);
    hide SEARCH_EXTENSIONS, GoodTable, BigGroups, Grouped, Sort, Sorted, Cheap, Has;
    forall k | 0 <= k < |table| ensures Has(GroupingOf(exts).mask, k) <==> Cheap(exts, table[k]) {
      SelectedExactly(table, given, k);
      SameCheap(given, exts, table[k]);
    }
  }

  lemma {:induction false} AddsPlain(given: seq<Param>, exts: seq<string>)
    requires NoExtensions(given)
    ensures AskFor(given + Adds(exts), given, exts, false)
  {
    ReadOthers(given);
    ReadAdds(given, exts);
    assert [] + NonEmpty(exts) == NonEmpty(exts);
    hide Read, NonEmpty;
  }

  lemma {:induction false} GroupsAsk(given: seq<Param>, exts: seq<string>)
    requires NoExtensions(given)
    ensures AskFor(given + GroupInfo(GroupingOf(exts)), given, exts, true)
  {
    var params := given + GroupInfo(GroupingOf(exts));
    HasGroups(given, GroupingOf(exts));
    hide GroupingOf, GroupInfo, Read, NoExtensions, NamesGroups, SEARCH_EXTENSIONS, Repeated;
    forall x ensures Read(params).Asks(x) <==> x in exts && x != "" && !Repeated(exts, x)
    {
      GroupsAskAt(given, exts, x);
    }
  }

  lemma {:induction false} HasGroups(given: seq<Param>, g: Grouping)
    ensures NamesGroups(given + GroupInfo(g))
  {
    assert (given + GroupInfo(g))[|given| + |g.exts|] == GR(g.mask);
  }

  lemma {:induction false} GroupsAskAt(given: seq<Param>, exts: seq<string>, x: string)
    requires NoExtensions(given)
    ensures Read(given + GroupInfo(GroupingOf(exts))).Asks(x) <==> x in exts && x != "" && !Repeated(exts, x)
  {
    var l := Read(given + GroupInfo(GroupingOf(exts)));
    hide GroupingOf, GroupInfo, Read, NoExtensions, SEARCH_EXTENSIONS, Covered, Count, Cheap;
    GroupedCounts(given, exts, x);
    NeverEmpty(GroupingOf(exts).mask);
    CoveredExactly(exts, x);
    CountIn(l.ext, x);
    CountIn(l.noExt, x);
    CountIn(exts, x);
  }

  // ---------------------------------------------------------------- a search to the hub

  lemma {:induction false} OneCommand(c: Command, supports: set<string>)
    ensures Received([c], supports) == if c.Reaches(supports) then [c] else []
  {
    NothingReceived(supports);
    assert [] + [c] == [c];
    ReceivedLast([], c, supports);
    hide Command.Reaches;
  }

  lemma {:induction false} StartReaches(params: seq<Param>, aschOnly: bool, supports: set<string>)
    ensures Start(params, aschOnly).Reaches(supports) <==> !aschOnly || ASCH in supports
  {
    var plain := Command(Broadcast, [], params);
    Restricted(plain, Required(ASCH), supports);
    assert plain.With([Required(ASCH)]) == Command(Featured, [Required(ASCH)], params);
  }

  lemma {:induction false} SameReach(c: Command, params: seq<Param>, supports: set<string>)
    ensures c.(params := params).Reaches(supports) <==> c.Reaches(supports)
  {}

  /** Whatever the user supports and whatever is asked for: at most one command arrives, and it has the
      extensions of the search, in groups for users that know them. */
  lemma {:induction false} Arrives(active: bool, params: seq<Param>, aschOnly: bool, exts: seq<string>,
      supports: set<string>)
    requires NoExtensions(params)
    ensures var got := Received(Commands(active, Start(params, aschOnly), exts), supports);
      var grouped := |exts| > 2 && GroupFound(exts) && "SEGA" in supports;
      if aschOnly && "ASCH" !in supports then got == []
      else if grouped && !active && "TCP4" !in supports && "NAT0" !in supports then got == []
      else |got| == 1 && AskFor(got[0].params, params, Sent(exts), grouped)
  {
    FoundExactly(exts);
    AddsPlain(params, Sent(exts));
    GroupsAsk(params, exts);
    hide AskFor, GroupFound, GroupingOf, GroupInfo, NoExtensions;
    if |exts| > 2 && GroupFound(exts) {
      OneFormEach(active, params, aschOnly, exts, supports);
      hide Received, Commands;
    } else {
      NotGrouped(active, params, aschOnly, exts, supports);
      hide Received, Commands;
    }
  }

  lemma {:induction false} NotGrouped(active: bool, params: seq<Param>, aschOnly: bool, exts: seq<string>,
      supports: set<string>)
    requires |exts| <= 2 || GroupingOf(exts).mask == 0
    ensures var c := Start(params, aschOnly);
      Received(Commands(active, c, exts), supports) ==
        if aschOnly && ASCH !in supports then []
        else [c.(params := params + Adds(if |exts| <= 2 then exts else []))]
  {
    var c := Start(params, aschOnly);
    var sent := c.(params := params + Adds(if |exts| <= 2 then exts else []));
    hide GroupingOf, Command.Reaches, Received;
    assert params + Adds([]) == params;
    assert Commands(active, c, exts) == [sent];
    OneCommand(sent, supports);
    SameReach(c, sent.params, supports);
    StartReaches(params, aschOnly, supports);
  }

  // ---------------------------------------------------------------- a search to one user

  /** A direct search has the extensions as well, in groups exactly if the user knows them. */
  lemma {:induction false} ArrivesDirect(params: seq<Param>, exts: seq<string>, hasSega: bool)
    requires NoExtensions(params)
    ensures AskFor(params + DirectInfo(exts, hasSega), params, Sent(exts), |exts| > 2 && GroupFound(exts) && hasSega)
  {
    FoundExactly(exts);
    AddsPlain(params, Sent(exts));
    GroupsAsk(params, exts);
    hide AskFor, GroupFound, GroupingOf, GroupInfo, NoExtensions;
    assert Adds([]) == [];
  }
}
