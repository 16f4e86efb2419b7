/** The two lists that the receiver of a grouped search builds, in terms of the extensions the search was
    for, and when taking away the exclusions leaves what was meant. */
module SearchAlignment {

  import opened Ordering
  import opened SearchDifference
  import opened SearchGroups
  import opened SearchReceiver
  import opened SearchSelection
  import opened SearchTable

  function Copies(x: string, n: nat): seq<string> { seq(n, _ => x) }

  /** What has to be taken away if the group is used: members that are not given, and those given
      more than once for each time too many. */
  function Extra(given: seq<string>, def: seq<string>): seq<string> {
    if def == [] then []
    else
      var last := def[|def| - 1];
      Extra(given, def[..|def| - 1]) + Copies(last, Gap(1, Count(given, last)))
  }

  /** The groups below n that are used, and what is taken away from them; later groups first. */
  ghost function Used(table: Table, given: seq<string>, n: nat): seq<string>
    requires n <= |table|
  {
    if n == 0 then []
    else if Cheap(given, table[n - 1]) then table[n - 1] + Used(table, given, n - 1)
    else Used(table, given, n - 1)
  }

  ghost function Excluded(table: Table, given: seq<string>, n: nat): seq<string>
    requires n <= |table|
  {
    if n == 0 then []
    else if Cheap(given, table[n - 1]) then Extra(given, table[n - 1]) + Excluded(table, given, n - 1)
    else Excluded(table, given, n - 1)
  }

  lemma {:induction false} CountCopies(x: string, n: nat, y: string)
    ensures Count(Copies(x, n), y) == if x == y then n else 0
  {
    if n > 0 {
      assert Copies(x, n) == Copies(x, n - 1) + [x];
      CountCopies(x, n - 1, y);
    }
  }

  lemma {:induction false} ExtraCount(given: seq<string>, def: seq<string>, x: string)
    requires Ascending(def)
    ensures Count(Extra(given, def), x) == if x in def then Gap(1, Count(given, x)) else 0
  {
    hide Less;
    if def != [] {
      var front, last := def[..|def| - 1], def[|def| - 1];
      assert def == front + [last];
      FrontAscending(def);
      hide Ascending;
      ExtraCount(given, front, x);
      CountCopies(last, Gap(1, Count(given, last)), x);
      CountConcat(Extra(given, front), Copies(last, Gap(1, Count(given, last))), x);
      LessIrreflexive(last);
      hide Count, Extra, Copies, Gap;
    } else {
      NothingCounted(x);
    }
  }

  lemma {:induction false} FrontAscending(def: seq<string>)
    requires Ascending(def) && def != []
    ensures var front := def[..|def| - 1]; Ascending(front) && forall x :: x in front ==> Less(x, def[|def| - 1])
  {
    hide Less;
    var front := def[..|def| - 1];
    assert forall k :: 0 <= k < |front| ==> front[k] == def[k];
  }

  lemma {:induction false} ExtraSorted(given: seq<string>, def: seq<string>)
    requires Ascending(def)
    ensures Sorted(Extra(given, def)) && forall x :: x in Extra(given, def) ==> x in def
  {
    hide Less;
    if def != [] {
      var front, last := def[..|def| - 1], def[|def| - 1];
      var some, more := Extra(given, front), Copies(last, Gap(1, Count(given, last)));
      FrontAscending(def);
      ExtraSorted(given, front);
      hide Ascending, Count, Extra;
      assert forall x :: x in front ==> x in def;
      forall i, j | 0 <= i < j < |some + more| ensures !Less((some + more)[j], (some + more)[i]) {
        LessIrreflexive(last);
        if i < |some| <= j {
          assert some[i] in front;
          LessAsymmetric(some[i], last);
        }
      }
    }
  }

  /** Two sorted lists with the same extensions, as often, are the same. */
  lemma {:induction false} SameCounts(a: seq<string>, b: seq<string>)
    requires Sorted(a) && Sorted(b) && forall x :: Count(a, x) == Count(b, x)
    ensures a == b
  {
    hide Less, Count;
    if a == [] {
      if b != [] { CountIn(b, b[0]); NothingCounted(b[0]); }
    } else {
      CountIn(a, a[0]);
      CountIn(b, a[0]);
      CountIn(a, b[0]);
      CountIn(b, b[0]);
      SortedTail(a);
      SortedTail(b);
      hide Sorted;
      LessTotal(a[0], b[0]);
      forall x ensures Count(a[1..], x) == Count(b[1..], x) {
        CountHead(a, x);
        CountHead(b, x);
      }
      SameCounts(a[1..], b[1..]);
    }
  }

  // ---------------------------------------------------------------- the lists

  lemma {:induction false} UsedIsParsed(table: Table, given: seq<string>, mask: bv8, n: nat)
    requires n <= |table| && forall k :: 0 <= k < n ==> (Has(mask, k) <==> Cheap(given, table[k]))
    ensures Parsed(table, mask, n) == Used(table, given, n)
  {
    hide Has, Cheap;
    if n > 0 { UsedIsParsed(table, given, mask, n - 1); }
  }

  lemma {:induction false} TakenIsExtra(table: Table, i: nat, given: seq<string>, g: Grouping)
    requires GoodTable(table) && i < |table| && Encodes(table, i, given, g)
    ensures Taken(table, i, g) == Extra(given, table[i])
  {
    var rx, def := Taken(table, i, g), table[i];
    hide Has, Taken, Covered, Count, EncodesAt, Disjoint, Less, Extra, Gap;
    assert Ascending(def);
    hide Ascending;
    ExtraSorted(given, def);
    TakenSorted(table, i, g);
    forall x ensures Count(rx, x) == Count(Extra(given, def), x) {
      StepCount(table, i, given, g, x);
      ExtraCount(given, def, x);
    }
    SameCounts(rx, Extra(given, def));
  }

  lemma {:induction false} TakenSorted(table: Table, i: nat, g: Grouping)
    requires GoodTable(table) && i < |table| && Sorted(g.exts)
    ensures Sorted(Taken(table, i, g))
  {
    hide Less, SymDiff, Keep, Disjoint, Sorted, Ascending;
    assert Ascending(table[i]);
    AscendingOnce(table[i], "");
    SymDiffSorted(table[i], g.exts, "");
    KeepSorted(SymDiff(table[i], g.exts), table[i], true);
  }

  /** The exclusions are what has to be taken away from the groups used. */
  lemma {:induction false} ExcludedList(table: Table, i: nat, given: seq<string>, g: Grouping)
    requires GoodTable(table) && BigGroups(table) && Encodes(table, i, given, g) && i <= |table|
    requires g.excluded == Excluded(table, given, i)
    ensures Grouped(table, i, g).excluded == Excluded(table, given, |table|)
    decreases |table| - i
  {
    hide Has, Sorted, AddBit, FewTaken, Encodes, Cost, GoodTable, Count, BigGroups, Extra;
    if i < |table| {
      var next := Try(table, i, g);
      TakenCost(table, i, given, g);
      TakenIsExtra(table, i, given, g);
      hide Taken;
      assert next.Some? <==> Cheap(given, table[i]);
      if next.Some? {
        TryEncodes(table, i, given, g);
        hide Try;
        if |next.value.exts| > 2 {
          ExcludedList(table, i + 1, given, next.value);
        } else {
          forall k | i < k < |table| ensures !Cheap(given, table[k]) {
            BigAt(table, k);
            if Cheap(given, table[k]) { StillListed(table, i + 1, given, next.value, k); }
          }
          NoneLater(table, given, i + 1, |table|);
        }
      } else {
        hide Try;
        StillEncodes(table, i, given, g);
        ExcludedList(table, i + 1, given, g);
      }
    }
  }

  lemma {:induction false} NoneLater(table: Table, given: seq<string>, i: nat, n: nat)
    requires i <= n <= |table| && forall k :: i <= k < n ==> !Cheap(given, table[k])
    ensures Excluded(table, given, n) == Excluded(table, given, i)
  {
    hide Cheap, Extra;
    if i < n { NoneLater(table, given, i, n - 1); }
  }

  // ---------------------------------------------------------------- one group

  /** Behind the first y. */
  function After(def: seq<string>, y: string): seq<string> {
    if def == [] then [] else if def[0] == y then def[1..] else After(def[1..], y)
  }

  lemma {:induction false} AfterSplit(def: seq<string>, y: string) returns (front: seq<string>)
    requires Ascending(def) && y in def
    ensures def == front + ([y] + After(def, y)) && AllSmaller(front, y) && Ascending(After(def, y))
    ensures forall x :: x in After(def, y) <==> x in def && Less(y, x)
  {
    hide Less;
    var head, tail := def[0], def[1..];
    assert def == [head] + tail;
    AscendingTail(def);
    LessIrreflexive(head);
    if head == y {
      front := [];
      assert [] + ([y] + tail) == def;
    } else {
      front := AfterSplit(tail, y);
      hide Ascending;
      LessAsymmetric(head, y);
      Regrouped(head, front, [y] + After(tail, y));
      front := [head] + front;
    }
  }

  lemma {:induction false} Regrouped(x: string, a: seq<string>, b: seq<string>)
    ensures [x] + (a + b) == ([x] + a) + b
  {}

  lemma {:induction false} AscendingTail(def: seq<string>)
    requires Ascending(def) && def != []
    ensures Ascending(def[1..]) && forall x :: x in def[1..] ==> Less(def[0], x)
  {
    hide Less;
    forall x | x in def[1..] ensures Less(def[0], x) {
      var k :| 0 <= k < |def[1..]| && def[1..][k] == x;
      assert def[k + 1] == x;
    }
  }

  /** In front of a group there is p: those to be taken away must all be larger, and those to be kept
      smaller than something there. */
  ghost predicate Fits(p: seq<string>, taken: seq<string>, given: seq<string>) {
    forall y :: y in taken ==> if y in given then Blocked(p, y) else AllSmaller(p, y)
  }

  /** What is in front of the next group: all that comes behind the last one taken away. */
  function Pending(p: seq<string>, def: seq<string>, taken: seq<string>, given: seq<string>): seq<string>
    decreases |taken|
  {
    if taken == [] then p + def
    else if taken[0] in given then Pending(p, def, taken[1..], given)
    else Pending([], After(def, taken[0]), taken[1..], given)
  }

  ghost predicate TakenFrom(taken: seq<string>, def: seq<string>, given: seq<string>) {
    && Sorted(taken) && (forall y :: y in taken ==> y in def)
    && forall y :: y in taken && y !in given ==> Count(taken, y) == 1
  }

  /** The first of the exclusions of a group. */
  lemma {:induction false} FirstTaken(taken: seq<string>, def: seq<string>, given: seq<string>)
    requires taken != [] && Ascending(def) && TakenFrom(taken, def, given)
    ensures var y, rest := taken[0], taken[1..];
      && y in def && AtLeast(taken, y) && (y !in given ==> y !in rest)
      && TakenFrom(rest, if y in given then def else After(def, y), given)
  {
    var y, rest := taken[0], taken[1..];
    hide Less;
    assert y in taken;
    SortedTail(taken);
    CountHead(taken, y);
    CountIn(rest, y);
    var front := AfterSplit(def, y);
    hide Ascending, Sorted, Count;
    forall x | x in rest ensures x in taken && (y !in given ==> x in After(def, y)) {
      LessTotal(x, y);
    }
    forall x | x in rest && x !in given ensures Count(rest, x) == 1 {
      CountHead(taken, x);
      CountIn(rest, x);
    }
  }

  /** The exclusions of one group, with p in front of it. */
  lemma {:induction false} GroupTaken(p: seq<string>, def: seq<string>, taken: seq<string>, u: seq<string>,
                                      b: seq<string>, given: seq<string>)
    requires Once(p + (def + u)) && Ascending(def) && TakenFrom(taken, def, given) && forall x :: x in b ==> x in u
    ensures Handles(p + (def + u), taken + b, given) <==>
      Fits(p, taken, given) && Handles(Pending(p, def, taken, given) + u, b, given)
    ensures Once(Pending(p, def, taken, given) + u)
    decreases |taken|
  {
    if taken == [] {
      assert taken + b == b && p + (def + u) == (p + def) + u;
    } else {
      var y, rest := taken[0], taken[1..];
      FirstTaken(taken, def, given);
      var front := AfterSplit(def, y);
      var q, s := p + front, After(def, y) + u;
      Joined(p, front, y, After(def, y), u);
      assert taken + b == [y] + (rest + b);
      InFront(q, y, s, rest, b);
      OneTaken(q, y, s, rest + b, given);
      FrontSmaller(p, front, y);
      hide Handles, Once, Ascending, Less, TakenFrom, AllSmaller, Blocked;
      if y in given {
        GroupTaken(p, def, rest, u, b, given);
      } else {
        assert [] + s == s;
        GroupTaken([], After(def, y), rest, u, b, given);
        RestFits(p, y, rest, given);
      }
      FitsFirst(p, taken, given);
      hide Fits;
    }
  }

  lemma {:induction false} Joined(p: seq<string>, front: seq<string>, y: string, tail: seq<string>, u: seq<string>)
    ensures p + ((front + ([y] + tail)) + u) == (p + front) + ([y] + (tail + u))
  {}

  /** The exclusions that follow are not in front. */
  lemma {:induction false} InFront(q: seq<string>, y: string, s: seq<string>, rest: seq<string>, b: seq<string>)
    requires Once(q + ([y] + s)) && (forall x :: x in rest ==> x == y || x in s) && (forall x :: x in b ==> x in s)
    ensures Apart(q, rest + b) && Once(s) && (y !in rest ==> y !in rest + b)
  {
    OnceParts(q, y, s);
    hide Once;
  }

  lemma {:induction false} FrontSmaller(p: seq<string>, front: seq<string>, y: string)
    requires AllSmaller(front, y)
    ensures AllSmaller(p + front, y) <==> AllSmaller(p, y)
    ensures Blocked(p + front, y) <==> Blocked(p, y)
  {
    NeverBlocked(front, y);
    hide Less;
    if x :| x in p && Less(y, x) { assert x in p + front; }
  }

  lemma {:induction false} FitsFirst(p: seq<string>, taken: seq<string>, given: seq<string>)
    requires taken != []
    ensures Fits(p, taken, given) <==>
      (if taken[0] in given then Blocked(p, taken[0]) else AllSmaller(p, taken[0])) && Fits(p, taken[1..], given)
  {
    hide Blocked, AllSmaller;
    assert taken == [taken[0]] + taken[1..];
  }

  /** Behind one that was taken away, the rest of the group has nothing in front of it. */
  lemma {:induction false} RestFits(p: seq<string>, y: string, rest: seq<string>, given: seq<string>)
    requires AtLeast(rest, y) && y !in given
    ensures AllSmaller(p, y) ==> (Fits(p, rest, given) <==> Fits([], rest, given))
  {
    hide Less;
    if AllSmaller(p, y) {
      forall z | z in rest ensures AllSmaller(p, z) && !Blocked(p, z) {
        forall x | x in p ensures Less(x, z) {
          LessTotal(y, z);
          if y != z { LessTransitive(x, y, z); }
        }
        NeverBlocked(p, z);
      }
    }
  }

  // ---------------------------------------------------------------- all groups

  /** The groups below n, with p in front of them. */
  ghost predicate RightBelow(table: Table, given: seq<string>, n: nat, p: seq<string>)
    requires n <= |table|
  {
    if n == 0 then true
    else if !Cheap(given, table[n - 1]) then RightBelow(table, given, n - 1, p)
    else
      var def, taken := table[n - 1], Extra(given, table[n - 1]);
      Fits(p, taken, given) && RightBelow(table, given, n - 1, Pending(p, def, taken, given))
  }

  lemma {:induction false} ExtraTaken(given: seq<string>, def: seq<string>)
    requires Ascending(def)
    ensures TakenFrom(Extra(given, def), def, given)
    ensures forall y :: y in Extra(given, def) <==> y in def && Count(given, y) != 1
  {
    var taken := Extra(given, def);
    hide Less, Ascending, Extra, Count;
    ExtraSorted(given, def);
    hide Sorted;
    forall y ensures (y in taken <==> y in def && Count(given, y) != 1) &&
      (y in taken && y !in given ==> Count(taken, y) == 1)
    {
      ExtraCount(given, def, y);
      CountIn(taken, y);
      CountIn(given, y);
    }
  }

  lemma {:induction false} ExcludedInside(table: Table, given: seq<string>, n: nat)
    requires GoodTable(table) && n <= |table|
    ensures forall x :: x in Excluded(table, given, n) ==> x in Used(table, given, n)
  {
    hide Cheap, Extra, Ascending;
    if n > 0 {
      GoodGroup(table, n - 1);
      ExtraSorted(given, table[n - 1]);
      hide GoodTable;
      ExcludedInside(table, given, n - 1);
    }
  }

  lemma {:induction false} RightByGroups(table: Table, given: seq<string>, n: nat, p: seq<string>)
    requires GoodTable(table) && n <= |table| && Once(p + Used(table, given, n))
    ensures Handles(p + Used(table, given, n), Excluded(table, given, n), given) <==> RightBelow(table, given, n, p)
    decreases n
  {
    hide GoodTable, Ascending, Handles, Once, Cheap, Extra, Fits, Pending;
    if n == 0 {
      NoneTaken(p + Used(table, given, n), given);
    } else if !Cheap(given, table[n - 1]) {
      RightByGroups(table, given, n - 1, p);
    } else {
      var def, taken := table[n - 1], Extra(given, table[n - 1]);
      GoodGroup(table, n - 1);
      ExtraTaken(given, def);
      ExcludedInside(table, given, n - 1);
      GroupTaken(p, def, taken, Used(table, given, n - 1), Excluded(table, given, n - 1), given);
      RightByGroups(table, given, n - 1, Pending(p, def, taken, given));
    }
  }

  lemma {:induction false} NoneTaken(a: seq<string>, given: seq<string>)
    ensures Handles(a, [], given)
  {
    NoneToTake(a);
  }

  lemma {:induction false} GoodGroup(table: Table, g: nat)
    requires GoodTable(table)
    ensures g < |table| ==> Ascending(table[g])
  {}

  // ---------------------------------------------------------------- in terms of the given list

  /** The extension x stands in front of the groups below n when the receiver comes to them: it is in a
      group used, behind all that is missing of it, and nothing is missing of the groups in between. */
  ghost predicate InTheWay(table: Table, given: seq<string>, n: nat, x: string) {
    exists h :: n <= h < |table| && WayFrom(table, given, n, h, x)
  }

  ghost predicate WayFrom(table: Table, given: seq<string>, n: nat, h: nat, x: string)
    requires h < |table|
  {
    && Cheap(given, table[h]) && x in table[h] && (forall y :: y in table[h] && y !in given ==> Less(y, x))
    && forall m :: n <= m < h && Cheap(given, table[m]) ==> Full(given, table[m])
  }

  ghost predicate Full(given: seq<string>, def: seq<string>) {
    forall y :: y in def ==> y in given
  }

  /** Whatever stands in the way of a missing member of a group used is smaller. */
  ghost predicate MissingFree(table: Table, given: seq<string>, n: nat)
    requires n <= |table|
  {
    forall k, e, x :: 0 <= k < n && Cheap(given, table[k]) && e in table[k] && InTheWay(table, given, k + 1, x) ==>
      e in given || Less(x, e)
  }

  /** Something larger stands in the way of a repeated one. */
  ghost predicate RepeatedBlocked(table: Table, given: seq<string>, n: nat)
    requires n <= |table|
  {
    forall k, e :: 0 <= k < n && Cheap(given, table[k]) && e in table[k] && Count(given, e) > 1 ==>
      exists x :: InTheWay(table, given, k + 1, x) && Less(e, x)
  }

  ghost predicate ReadsRight(table: Table, given: seq<string>) {
    MissingFree(table, given, |table|) && RepeatedBlocked(table, given, |table|)
  }

  lemma {:induction false} PendingMembers(p: seq<string>, def: seq<string>, taken: seq<string>, given: seq<string>,
      x: string)
    requires Ascending(def) && TakenFrom(taken, def, given)
    ensures x in Pending(p, def, taken, given) <==>
      if Full(given, taken) then x in p || x in def
      else x in def && forall y :: y in taken && y !in given ==> Less(y, x)
    decreases |taken|
  {
    if taken != [] {
      var y, rest := taken[0], taken[1..];
      FirstTaken(taken, def, given);
      var front := AfterSplit(def, y);
      assert taken == [y] + rest;
      hide Less, Ascending, TakenFrom;
      if y in given {
        PendingMembers(p, def, rest, given, x);
      } else {
        PendingMembers([], After(def, y), rest, given, x);
      }
    }
  }

  /** Below a group that is not used, or complete, or not. */
  lemma {:induction false} WayStep(table: Table, given: seq<string>, n: nat, x: string)
    requires 0 < n <= |table|
    ensures var def := table[n - 1];
      InTheWay(table, given, n - 1, x) <==>
        if !Cheap(given, def) then InTheWay(table, given, n, x)
        else if Full(given, def) then InTheWay(table, given, n, x) || x in def
        else x in def && forall y :: y in def && y !in given ==> Less(y, x)
  {
    var m := n - 1;
    var def := table[m];
    hide Less, Cheap;
    if h :| n <= h < |table| && WayFrom(table, given, n, h, x) {
      if !Cheap(given, def) || Full(given, def) { assert WayFrom(table, given, m, h, x); }
    }
    if Cheap(given, def) {
      assert WayFrom(table, given, m, m, x) <==> x in def && forall y :: y in def && y !in given ==> Less(y, x);
    }
    if h :| m <= h < |table| && WayFrom(table, given, m, h, x) {
      if h >= n { assert WayFrom(table, given, n, h, x); }
    }
  }

  /** One group more. */
  lemma {:induction false} FitsClosed(table: Table, given: seq<string>, n: nat, p: seq<string>, taken: seq<string>)
    requires 0 < n <= |table| && Cheap(given, table[n - 1]) && forall x :: x in p <==> InTheWay(table, given, n, x)
    requires forall y :: y in taken <==> y in table[n - 1] && Count(given, y) != 1
    ensures MissingFree(table, given, n) && RepeatedBlocked(table, given, n) <==>
      Fits(p, taken, given) && MissingFree(table, given, n - 1) && RepeatedBlocked(table, given, n - 1)
  {
    hide Less, InTheWay, Cheap, Count;
    forall y ensures y in given <==> Count(given, y) > 0 { CountIn(given, y); }
    if Fits(p, taken, given) {
      forall e | e in table[n - 1] && e !in given ensures AllSmaller(p, e) {}
      forall e | e in table[n - 1] && Count(given, e) > 1 ensures Blocked(p, e) {}
    }
  }

  /** What stands in the way of the groups below is what is pending. */
  lemma {:induction false} WayBelow(table: Table, given: seq<string>, n: nat, p: seq<string>, x: string)
    requires GoodTable(table) && 0 < n <= |table| && (x in p <==> InTheWay(table, given, n, x))
    ensures var def := table[n - 1];
      InTheWay(table, given, n - 1, x) <==>
        if Cheap(given, def) then x in Pending(p, def, Extra(given, def), given) else x in p
  {
    var def := table[n - 1];
    var taken := Extra(given, def);
    GoodGroup(table, n - 1);
    ExtraTaken(given, def);
    hide GoodTable, Less, Extra, InTheWay, Cheap, Ascending, Pending, TakenFrom, Full;
    WayStep(table, given, n, x);
    PendingMembers(p, def, taken, given, x);
    SameMissing(given, def, taken);
  }

  /** What is in front of the groups below. */
  ghost function Next(p: seq<string>, given: seq<string>, def: seq<string>): seq<string> {
    if Cheap(given, def) then Pending(p, def, Extra(given, def), given) else p
  }

  lemma {:induction false} NextInTheWay(table: Table, given: seq<string>, n: nat, p: seq<string>, next: seq<string>)
    requires GoodTable(table) && 0 < n <= |table| && forall x :: x in p <==> InTheWay(table, given, n, x)
    requires next == Next(p, given, table[n - 1])
    ensures forall x :: x in next <==> InTheWay(table, given, n - 1, x)
  {
    hide GoodTable, Extra, InTheWay, Cheap, Pending;
    forall x ensures x in next <==> InTheWay(table, given, n - 1, x) {
      WayBelow(table, given, n, p, x);
    }
  }

  lemma {:induction false} RightStep(table: Table, given: seq<string>, n: nat, p: seq<string>)
    requires GoodTable(table) && 0 < n <= |table| && forall x :: x in p <==> InTheWay(table, given, n, x)
    requires RightBelow(table, given, n - 1, Next(p, given, table[n - 1])) <==>
      MissingFree(table, given, n - 1) && RepeatedBlocked(table, given, n - 1)
    ensures RightBelow(table, given, n, p) <==> MissingFree(table, given, n) && RepeatedBlocked(table, given, n)
  {
    var def := table[n - 1];
    GoodGroup(table, n - 1);
    ExtraTaken(given, def);
    hide GoodTable, Extra, InTheWay, Cheap, Ascending, Fits, Pending, MissingFree, RepeatedBlocked, TakenFrom, Count;
    if Cheap(given, def) { FitsClosed(table, given, n, p, Extra(given, def)); } else { NotUsed(table, given, n); }
  }

  lemma {:induction false} RightClosed(table: Table, given: seq<string>, n: nat, p: seq<string>)
    requires GoodTable(table) && n <= |table| && forall x :: x in p <==> InTheWay(table, given, n, x)
    ensures RightBelow(table, given, n, p) <==> MissingFree(table, given, n) && RepeatedBlocked(table, given, n)
    decreases n
  {
    if n > 0 {
      hide GoodTable, InTheWay, MissingFree, RepeatedBlocked, RightBelow, Next;
      var next := Next(p, given, table[n - 1]);
      NextInTheWay(table, given, n, p, next);
      RightClosed(table, given, n - 1, next);
      RightStep(table, given, n, p);
    }
  }

  lemma {:induction false} SameMissing(given: seq<string>, def: seq<string>, taken: seq<string>)
    requires forall y :: y in taken <==> y in def && Count(given, y) != 1
    ensures (Full(given, taken) <==> Full(given, def)) && forall y :: y !in given ==> (y in taken <==> y in def)
  {
    forall y | y !in given ensures Count(given, y) == 0 { CountIn(given, y); }
    hide Count;
  }

  lemma {:induction false} NotUsed(table: Table, given: seq<string>, n: nat)
    requires 0 < n <= |table| && !Cheap(given, table[n - 1])
    ensures MissingFree(table, given, n) <==> MissingFree(table, given, n - 1)
    ensures RepeatedBlocked(table, given, n) <==> RepeatedBlocked(table, given, n - 1)
  {
    hide Cheap, InTheWay, Less, Count;
  }

  /** For any good table and any given list: the exclusions take away exactly what is not given if and
      only if all that stands in the way of a missing one is smaller, and something larger stands in the
      way of a repeated one. */
  lemma {:induction false} HandledExactly(table: Table, given: seq<string>)
    requires GoodTable(table)
    ensures Handles(Used(table, given, |table|), Excluded(table, given, |table|), given) <==> ReadsRight(table, given)
  {
    var n, none: seq<string> := |table|, [];
    UsedOnce(table, given, n);
    hide GoodTable, Once, Used, Excluded, Cheap, MissingFree, RepeatedBlocked, RightBelow, Handles;
    assert none + Used(table, given, n) == Used(table, given, n);
    RightByGroups(table, given, n, none);
    RightClosed(table, given, n, none);
  }

  lemma {:induction false} UsedOnce(table: Table, given: seq<string>, n: nat)
    requires GoodTable(table) && n <= |table|
    ensures Once(Used(table, given, n)) && forall x :: x in Used(table, given, n) ==>
      exists k :: 0 <= k < n && x in table[k]
  {
    hide Cheap, Less;
    if n > 0 {
      var def, used := table[n - 1], Used(table, given, n - 1);
      UsedOnce(table, given, n - 1);
      GoodGroup(table, n - 1);
      forall x | x in used ensures x !in def {
        var k :| 0 <= k < n - 1 && x in table[k];
        assert Disjoint(table[k], def);
      }
      hide GoodTable;
      AscendingIsOnce(def);
      OnceBoth(def, used);
    }
  }

  lemma {:induction false} AscendingIsOnce(def: seq<string>)
    requires Ascending(def)
    ensures Once(def)
  {
    hide Less;
    forall i, j | 0 <= i < j < |def| ensures def[i] != def[j] { LessIrreflexive(def[i]); }
  }

  lemma {:induction false} OnceBoth(a: seq<string>, b: seq<string>)
    requires Once(a) && Once(b) && forall x :: x in b ==> x !in a
    ensures Once(a + b)
  {
    forall i, j | 0 <= i < j < |a + b| ensures (a + b)[i] != (a + b)[j] {
      if i < |a| <= j { assert b[j - |a|] in b; }
    }
  }
}
