/** Which groups of extensions a search selects (hub/AdcHub.cpp, groupExtensions), in terms of the list
    that is given. */
module SearchSelection {

  import opened Ordering
  import opened SearchGroups
  import opened SearchTable

  /** How many extensions have to be taken away if the group is used: members that are not given, and
      repetitions of given ones. */
  function Cost(given: seq<string>, def: seq<string>): nat {
    if def == [] then 0 else Cost(given, def[..|def| - 1]) + Gap(1, Count(given, def[|def| - 1]))
  }

  ghost predicate Cheap(given: seq<string>, def: seq<string>) { Cost(given, def) <= 2 }

  // ---------------------------------------------------------------- the cost is what is taken

  lemma {:induction false} SameCost(s: seq<string>, t: seq<string>, def: seq<string>)
    requires multiset(s) == multiset(t)
    ensures Cost(s, def) == Cost(t, def)
  {
    if def != [] { SameCost(s, t, def[..|def| - 1]); }
  }

  lemma {:induction false} CostOf(rx: multiset<string>, given: seq<string>, def: seq<string>)
    requires Ascending(def)
    requires forall x :: rx[x] == if x in def then Gap(1, Count(given, x)) else 0
    ensures |rx| == Cost(given, def)
  {
    hide Less;
    if def == [] {
      assert rx == multiset{};
    } else {
      var front, last := def[..|def| - 1], def[|def| - 1];
      var rest := rx[last := 0];
      assert def == front + [last];
      forall k | 0 <= k < |front| ensures front[k] != last {
        assert Less(def[k], def[|def| - 1]);
        LessIrreflexive(last);
      }
      assert Ascending(front) by { assert forall k :: 0 <= k < |front| ==> front[k] == def[k]; }
      hide Ascending;
      forall x ensures rest[x] == if x in front then Gap(1, Count(given, x)) else 0 {}
      CostOf(rest, given, front);
      assert |rx| == |rest| + rx[last];
    }
  }

  lemma {:induction false} TakenCost(table: Table, i: nat, given: seq<string>, g: Grouping)
    requires GoodTable(table) && i < |table| && Encodes(table, i, given, g)
    ensures |Taken(table, i, g)| == Cost(given, table[i])
  {
    var rx := Taken(table, i, g);
    hide Has, Taken, Covered, Sorted, EncodesAt, Disjoint, Less, Cost;
    assert Ascending(table[i]);
    forall x ensures multiset(rx)[x] == if x in table[i] then Gap(1, Count(given, x)) else 0 {
      StepCount(table, i, given, g, x);
    }
    CostOf(multiset(rx), given, table[i]);
  }

  /** A group is passed over exactly when more than two extensions would have to be taken away. */
  lemma {:induction false} PassedExactly(table: Table, i: nat, given: seq<string>, g: Grouping)
    requires GoodTable(table) && i < |table| && Encodes(table, i, given, g)
    ensures Try(table, i, g).None? <==> !Cheap(given, table[i])
  {
    TakenCost(table, i, given, g);
    hide Taken, Cost, Encodes, GoodTable;
  }

  /** The grouping selects nothing, and no extension is sent, exactly when that goes for every group. */
  lemma {:induction false} NothingSelectedExactly(table: Table, given: seq<string>)
    requires GoodTable(table) && Sorted(given)
    ensures Grouped(table, 0, Grouping(given, 0, [])).mask == 0 <==>
      forall g :: 0 <= g < |table| ==> !Cheap(given, table[g])
  {
    var start := Grouping(given, 0, []);
    hide Grouped, Try, GoodTable, Cheap, Sorted, Count;
    forall k: nat ensures !Has(0, k) {}
    SizeBound(table);
    NoneFound(table, 0, start);
    StartEncodes(table, given);
    StillEncodes(table, 0, given, start);
    forall g | 0 <= g < |table| ensures Try(table, g, start).None? <==> !Cheap(given, table[g]) {
      PassedExactly(table, g, given, start);
    }
  }

  // ---------------------------------------------------------------- stopping early

  /** The members that are given. */
  function Present(given: seq<string>, def: seq<string>): seq<string> {
    if def == [] then []
    else
      var rest, x := Present(given, def[..|def| - 1]), def[|def| - 1];
      if x in given then rest + [x] else rest
  }

  lemma {:induction false} PresentMany(given: seq<string>, def: seq<string>)
    requires Ascending(def)
    ensures |Present(given, def)| + Cost(given, def) >= |def| && Ascending(Present(given, def))
    ensures forall x :: x in Present(given, def) <==> x in def && x in given
  {
    hide Less;
    if def != [] {
      var front, last := def[..|def| - 1], def[|def| - 1];
      assert def == front + [last];
      assert Ascending(front) by { assert forall k :: 0 <= k < |front| ==> front[k] == def[k]; }
      PresentMany(given, front);
      CountIn(given, last);
      forall x | x in Present(given, front) ensures Less(x, last) {
        var k :| 0 <= k < |front| && front[k] == x;
        assert Less(def[k], def[|def| - 1]);
      }
    }
  }

  lemma {:induction false} ThreeInside(s: seq<string>, few: seq<string>)
    requires |few| > 2 && Ascending(few) && forall x :: x in few ==> x in s
    ensures |s| > 2
  {
    LessIrreflexive(few[0]);
    LessIrreflexive(few[1]);
    assert Less(few[0], few[1]) && Less(few[0], few[2]) && Less(few[1], few[2]);
    hide Less;
    assert few[0] in s && few[1] in s && few[2] in s;
    var i :| 0 <= i < |s| && s[i] == few[0];
    var j :| 0 <= j < |s| && s[j] == few[1];
    var k :| 0 <= k < |s| && s[k] == few[2];
  }

  /** While a later group with few members missing is to come, more than two extensions are listed. */
  lemma {:induction false} StillListed(table: Table, i: nat, given: seq<string>, g: Grouping, k: nat)
    requires GoodTable(table) && i <= k < |table| && Encodes(table, i, given, g)
    requires |table[k]| > 4 && Cheap(given, table[k])
    ensures |g.exts| > 2
  {
    var def := table[k];
    hide Less, Has, FewTaken, Covered, Sorted, Disjoint, Cost, Present;
    assert Ascending(def);
    PresentMany(given, def);
    forall x | x in Present(given, def) ensures x in g.exts {
      NotCovered(table, g.mask, k, x);
      CountIn(given, x);
      CountIn(g.exts, x);
      assert EncodesAt(table, given, g, x);
    }
    ThreeInside(g.exts, Present(given, def));
  }

  // ---------------------------------------------------------------- which groups are selected

  ghost predicate BigGroups(table: Table) {
    forall k :: 0 <= k < |table| ==> |table[k]| > 4
  }

  /** The groups selected are those of which at most two extensions have to be taken away: the loop never
      stops before one of them. */
  lemma {:induction false} SelectedExactly(table: Table, given: seq<string>, k: nat)
    requires GoodTable(table) && BigGroups(table) && Sorted(given) && k < |table|
    ensures Has(Grouped(table, 0, Grouping(given, 0, [])).mask, k) <==> Cheap(given, table[k])
  {
    StartEncodes(table, given);
    SelectedFrom(table, 0, given, Grouping(given, 0, []), k);
    hide Grouped, Cheap;
    assert forall j: nat :: !Has(0, j);
  }

  lemma {:induction false} SelectedFrom(table: Table, i: nat, given: seq<string>, g: Grouping, k: nat)
    requires GoodTable(table) && BigGroups(table) && Encodes(table, i, given, g) && i <= |table| && k < |table|
    ensures Has(Grouped(table, i, g).mask, k) <==> if k < i then Has(g.mask, k) else Cheap(given, table[k])
    decreases |table| - i
  {
    hide Has, Sorted, AddBit, Taken, FewTaken, Encodes, Cost, GoodTable;
    if i < |table| {
      var next := Try(table, i, g);
      NoLaterBits(table, i, given, g);
      SizeBound(table);
      PassedExactly(table, i, given, g);
      if next.Some? {
        BitAdded(g.mask, i, k);
        TryEncodes(table, i, given, g);
        hide Try, BigGroups;
        if |next.value.exts| > 2 {
          SelectedFrom(table, i + 1, given, next.value, k);
        } else if k > i && Cheap(given, table[k]) {
          BigAt(table, k);
          StillListed(table, i + 1, given, next.value, k);
        } else if k > i {
          NoLaterBits(table, i + 1, given, next.value);
        }
      } else {
        hide Try;
        StillEncodes(table, i, given, g);
        SelectedFrom(table, i + 1, given, g, k);
      }
    } 
  }

  lemma {:induction false} TableIsBig()
    ensures BigGroups(SEARCH_EXTENSIONS)
  {}

  lemma {:induction false} BigAt(table: Table, k: nat)
    requires BigGroups(table) && k < |table|
    ensures |table[k]| > 4
  {}

  lemma {:induction false} NoLaterBits(table: Table, i: nat, given: seq<string>, g: Grouping)
    requires Encodes(table, i, given, g)
    ensures forall k :: i <= k ==> !Has(g.mask, k)
  {
    hide Has, Sorted, EncodesAt, FewTaken;
  }

  // ---------------------------------------------------------------- when the encoding is right

  /** The encoding stands for the given extensions exactly when no group of which at most two have to be
      taken away has one that is listed twice. */
  lemma {:induction false} GroupingRightExactly(table: Table, given: seq<string>)
    requires GoodTable(table) && BigGroups(table) && Sorted(given)
    ensures (forall x :: Denoted(table, Grouped(table, 0, Grouping(given, 0, [])), x) <==> x in given) <==>
      forall k, x :: 0 <= k < |table| && Cheap(given, table[k]) && x in table[k] ==> Count(given, x) <= 1
  {
    var r := Grouped(table, 0, Grouping(given, 0, []));
    hide Denoted, Grouped, GoodTable, Sorted, Has, Count, Cheap, BigGroups;
    GroupingRightByMask(table, given);
    forall k | 0 <= k < |table| ensures Has(r.mask, k) <==> Cheap(given, table[k]) { SelectedExactly(table, given, k); }
  }
}
