/** The SEGA extension of ADC searches (hub/AdcHub.cpp, groupExtensions and parseSearchExts).

    The sender writes a list of file extensions as a bit mask of groups, with extensions to add and
    to take away.  `Denoted` is what such a triple stands for. */
module SearchGroups {

  import opened Options
  import opened Ordering
  import opened SearchTable

  type Table = seq<seq<string>>

  // ---------------------------------------------------------------- the bit mask

  function Bit(i: nat): bv8 {
    if i == 0 then 1 else if i == 1 then 2 else if i == 2 then 4 else if i == 3 then 8
    else if i == 4 then 16 else if i == 5 then 32 else if i == 6 then 64 else if i == 7 then 128 else 0
  }

  predicate Has(mask: bv8, i: nat) { mask & Bit(i) != 0 }

  function AddBit(mask: bv8, i: nat): bv8 { mask + Bit(i) }

  /** Adding a bit that is not there sets it and nothing else. */
  lemma {:induction false} BitAdded(mask: bv8, i: nat, j: nat)
    requires i < 8 && !Has(mask, i)
    ensures Has(AddBit(mask, i), j) <==> j == i || Has(mask, j)
  {
    assert mask & Bit(i) == 0 ==> mask + Bit(i) == mask | Bit(i);
  }

  // ---------------------------------------------------------------- lists

  ghost predicate Sorted(s: seq<string>) {
    forall i, j :: 0 <= i < j < |s| ==> !Less(s[j], s[i])
  }

  /** std::set_symmetric_difference */
  function SymDiff(a: seq<string>, b: seq<string>): seq<string> {
    if a == [] then b
    else if b == [] then a
    else if Less(a[0], b[0]) then [a[0]] + SymDiff(a[1..], b)
    else if Less(b[0], a[0]) then [b[0]] + SymDiff(a, b[1..])
    else SymDiff(a[1..], b[1..])
  }

  method SetSymmetricDifference(a: seq<string>, b: seq<string>) returns (r: seq<string>)
    ensures r == SymDiff(a, b)
  {
    r := [];
    var i, j := 0, 0;
    ghost var whole := SymDiff(a, b);
    StartsWith(a, b);
    hide Less, SymDiff, Splits;
    while i < |a| && j < |b|
      invariant i <= |a| && j <= |b| && Splits(whole, r, a, i, b, j)
      decreases |a| - i + |b| - j
    {
      SymDiffStep(whole, r, a, i, b, j);
      if Less(a[i], b[j]) {
        r := r + [a[i]];
        i := i + 1;
      } else if Less(b[j], a[i]) {
        r := r + [b[j]];
        j := j + 1;
      } else {
        i, j := i + 1, j + 1;
      }
    }
    SymDiffRest(whole, r, a, i, b, j);
    r := r + a[i..] + b[j..];
  }

  /** `r` and the difference of what is left make up the whole. */
  predicate Splits(whole: seq<string>, r: seq<string>, a: seq<string>, i: nat, b: seq<string>, j: nat) {
    i <= |a| && j <= |b| && whole == r + SymDiff(a[i..], b[j..])
  }

  lemma {:induction false} StartsWith(a: seq<string>, b: seq<string>)
    ensures Splits(SymDiff(a, b), [], a, 0, b, 0)
  {
    assert a[0..] == a && b[0..] == b;
    hide SymDiff;
  }

  lemma {:induction false} SymDiffStep(whole: seq<string>, r: seq<string>, a: seq<string>, i: nat, b: seq<string>,
      j: nat)
    requires i < |a| && j < |b| && Splits(whole, r, a, i, b, j)
    ensures
      if Less(a[i], b[j]) then Splits(whole, r + [a[i]], a, i + 1, b, j)
      else if Less(b[j], a[i]) then Splits(whole, r + [b[j]], a, i, b, j + 1)
      else Splits(whole, r, a, i + 1, b, j + 1)
  {
    var u, v := a[i..], b[j..];
    assert u[0] == a[i] && u[1..] == a[i + 1..] && v[0] == b[j] && v[1..] == b[j + 1..];
    SymDiffHead(u, v);
    hide Less, SymDiff;
  }

  lemma {:induction false} SymDiffHead(a: seq<string>, b: seq<string>)
    requires a != [] && b != []
    ensures SymDiff(a, b) ==
      if Less(a[0], b[0]) then [a[0]] + SymDiff(a[1..], b)
      else if Less(b[0], a[0]) then [b[0]] + SymDiff(a, b[1..])
      else SymDiff(a[1..], b[1..])
  {
    hide Less;
  }

  lemma {:induction false} SymDiffRest(whole: seq<string>, r: seq<string>, a: seq<string>, i: nat, b: seq<string>,
      j: nat)
    requires Splits(whole, r, a, i, b, j) && (i == |a| || j == |b|)
    ensures whole == r + a[i..] + b[j..]
  {}

  /** The elements that are in def, or those that are not, in order. */
  function Keep(s: seq<string>, def: seq<string>, inside: bool): seq<string> {
    if s == [] then []
    else
      var rest, x := Keep(s[..|s| - 1], def, inside), s[|s| - 1];
      if (x in def) == inside then rest + [x] else rest
  }

  // ---------------------------------------------------------------- grouping

  datatype Grouping = Grouping(exts: seq<string>, mask: bv8, excluded: seq<string>)

  /** Group i in place of the extensions it has, if at most two of its own have to be taken away. */
  function Try(table: Table, i: nat, g: Grouping): Option<Grouping>
    requires i < |table|
  {
    var rest, rx := Keep(SymDiff(table[i], g.exts), table[i], false), Taken(table, i, g);
    if |rx| > 2 then None else Some(Grouping(rest, AddBit(g.mask, i), rx + g.excluded))
  }

  /** The members of group i that are not listed (or are listed again). */
  function Taken(table: Table, i: nat, g: Grouping): seq<string>
    requires i < |table|
  {
    Keep(SymDiff(table[i], g.exts), table[i], true)
  }

  /** The groups from i on, until no more than two extensions are left. */
  function Grouped(table: Table, i: nat, g: Grouping): Grouping
    requires i <= |table|
    decreases |table| - i
  {
    if i == |table| then g
    else match Try(table, i, g)
      case None => Grouped(table, i + 1, g)
      case Some(next) => if |next.exts| <= 2 then next else Grouped(table, i + 1, next)
  }

  /** groupExtensions, for a table of groups. */
  method GroupExtensions(table: Table, given: seq<string>) returns (gr: bv8, exts: seq<string>, excluded: seq<string>)
    ensures Grouping(exts, gr, excluded) == Grouped(table, 0, Grouping(given, 0, []))
  {
    gr, exts, excluded := 0, given, [];
    hide SymDiff, Keep, AddBit;
    for i := 0 to |table|
      invariant Grouped(table, 0, Grouping(given, 0, [])) == Grouped(table, i, Grouping(exts, gr, excluded))
    {
      var def := table[i];
      var temp := SetSymmetricDifference(def, exts);
      var ok, rx, rest := Split(temp, def);
      if !ok {
        continue;
      }
      gr := AddBit(gr, i);
      exts := rest;
      excluded := rx + excluded;
      if |exts| <= 2 {
        break;
      }
    }
  }

  /** The inner loop: takes the members of the group out of the list, at most two of them. */
  method Split(all: seq<string>, def: seq<string>) returns (ok: bool, rx: seq<string>, temp: seq<string>)
    ensures ok == (|Keep(all, def, true)| <= 2)
    ensures ok ==> rx == Keep(all, def, true) && temp == Keep(all, def, false)
  {
    temp, rx := all, [];
    var diff := 0;
    ghost var seen := 0;
    while diff < |temp|
      invariant seen <= |all| && diff <= |temp| && temp[diff..] == all[seen..] && |rx| <= 2
      invariant temp[..diff] == Keep(all[..seen], def, false) && rx == Keep(all[..seen], def, true)
      decreases |all| - seen
    {
      assert temp[diff] == all[seen] && all[..seen + 1][..seen] == all[..seen];
      if temp[diff] !in def {
        diff := diff + 1;
      } else {
        if |rx| == 2 {
          KeepGrows(all, def, true, seen + 1);
          return false, rx, temp;
        }
        rx := rx + [temp[diff]];
        temp := temp[..diff] + temp[diff + 1..];
      }
      seen := seen + 1;
    }
    assert all[..seen] == all;
    ok := true;
  }

  lemma {:induction false} KeepGrows(s: seq<string>, def: seq<string>, inside: bool, k: nat)
    requires k <= |s|
    ensures |Keep(s[..k], def, inside)| <= |Keep(s, def, inside)|
  {
    if k == |s| {
      assert s[..k] == s;
    } else {
      KeepGrows(s[..|s| - 1], def, inside, k);
      assert s[..|s| - 1][..k] == s[..k];
    }
  }

  // ---------------------------------------------------------------- counting

  function Count(s: seq<string>, x: string): nat { multiset(s)[x] }

  function Gap(m: nat, n: nat): nat { if m < n then n - m else m - n }

  lemma {:induction false} CountHead(s: seq<string>, x: string)
    requires s != []
    ensures Count(s, x) == (if x == s[0] then 1 else 0) + Count(s[1..], x)
  {
    assert s == [s[0]] + s[1..];
  }

  lemma {:induction false} CountIn(s: seq<string>, x: string)
    ensures x in s <==> Count(s, x) > 0
  {}

  lemma {:induction false} CountConcat(s: seq<string>, t: seq<string>, x: string)
    ensures Count(s + t, x) == Count(s, x) + Count(t, x)
  {}

  /** Everything in the list is as large as the bound. */
  ghost predicate AtLeast(s: seq<string>, bound: string) {
    forall x :: x in s ==> !Less(x, bound)
  }

  lemma {:induction false} SortedTail(s: seq<string>)
    requires s != [] && Sorted(s)
    ensures Sorted(s[1..]) && AtLeast(s, s[0])
  {
    hide Less;
    forall x | x in s ensures !Less(x, s[0]) {
      var k :| 0 <= k < |s| && s[k] == x;
      LessIrreflexive(x);
    }
  }

  lemma {:induction false} AtLeastBelow(s: seq<string>, bound: string, low: string)
    requires AtLeast(s, bound) && Less(low, bound)
    ensures AtLeast(s, low) && Count(s, low) == 0
  {
    hide Less;
    forall x | x in s ensures !Less(x, low) && x != low {
      if Less(x, low) { LessTransitive(x, low, bound); }
    }
    CountIn(s, low);
  }

  lemma {:induction false} SymDiffCount(a: seq<string>, b: seq<string>, x: string)
    requires Sorted(a) && Sorted(b)
    ensures Count(SymDiff(a, b), x) == Gap(Count(a, x), Count(b, x))
  {
    hide Less, Sorted, AtLeast;
    if a != [] && b != [] {
      SortedTail(a);
      SortedTail(b);
      CountHead(a, x);
      CountHead(b, x);
      if Less(a[0], b[0]) {
        AtLeastBelow(b, b[0], a[0]);
        SymDiffCount(a[1..], b, x);
        CountConcat([a[0]], SymDiff(a[1..], b), x);
      } else if Less(b[0], a[0]) {
        AtLeastBelow(a, a[0], b[0]);
        SymDiffCount(a, b[1..], x);
        CountConcat([b[0]], SymDiff(a, b[1..]), x);
      } else {
        LessTotal(a[0], b[0]);
        SymDiffCount(a[1..], b[1..], x);
      }
    }
  }

  lemma {:induction false} SymDiffSorted(a: seq<string>, b: seq<string>, bound: string)
    requires Sorted(a) && Sorted(b)
    ensures Sorted(SymDiff(a, b))
    ensures AtLeast(a, bound) && AtLeast(b, bound) ==> AtLeast(SymDiff(a, b), bound)
  {
    if a != [] && b != [] {
      SortedTail(a);
      SortedTail(b);
      hide Less;
      if Less(a[0], b[0]) {
        AtLeastBelow(b, b[0], a[0]);
        SymDiffSorted(a[1..], b, a[0]);
        SymDiffSorted(a[1..], b, bound);
      } else if Less(b[0], a[0]) {
        AtLeastBelow(a, a[0], b[0]);
        SymDiffSorted(a, b[1..], b[0]);
        SymDiffSorted(a, b[1..], bound);
      } else {
        SymDiffSorted(a[1..], b[1..], bound);
      }
    }
  }

  lemma {:induction false} KeepCount(s: seq<string>, def: seq<string>, inside: bool, x: string)
    ensures Count(Keep(s, def, inside), x) == if (x in def) == inside then Count(s, x) else 0
  {
    if s != [] {
      KeepCount(s[..|s| - 1], def, inside, x);
      assert s == s[..|s| - 1] + [s[|s| - 1]];
    }
  }

  lemma {:induction false} KeepSorted(s: seq<string>, def: seq<string>, inside: bool)
    requires Sorted(s)
    ensures Sorted(Keep(s, def, inside)) && forall x :: x in Keep(s, def, inside) ==> x in s
  {
    hide Less;
    if s != [] {
      var front, last := s[..|s| - 1], s[|s| - 1];
      KeepSorted(front, def, inside);
      forall x | x in Keep(front, def, inside) ensures !Less(last, x) {
        var k :| 0 <= k < |front| && front[k] == x;
      }
    }
  }

  // ---------------------------------------------------------------- what the grouping means

  /** Some selected group has the extension. */
  ghost predicate Covered(table: Table, mask: bv8, x: string) {
    exists g :: 0 <= g < |table| && Has(mask, g) && x in table[g]
  }

  /** Stands for: the listed extensions, and those of the groups but for the excluded ones. */
  ghost predicate Denoted(table: Table, g: Grouping, x: string) {
    x in g.exts || (Covered(table, g.mask, x) && x !in g.excluded)
  }

  /** The state before group i, where `given` is the list to be encoded. */
  ghost predicate Encodes(table: Table, i: nat, given: seq<string>, g: Grouping) {
    && Sorted(g.exts)
    && (forall k :: i <= k ==> !Has(g.mask, k))
    && (forall x :: EncodesAt(table, given, g, x))
    && (forall k :: 0 <= k < |table| && Has(g.mask, k) ==> FewTaken(given, table[k]))
  }

  /** Extensions of selected groups are no longer listed, and are excluded when not given once. */
  ghost predicate EncodesAt(table: Table, given: seq<string>, g: Grouping, x: string) {
    && Count(g.exts, x) == (if Covered(table, g.mask, x) then 0 else Count(given, x))
    && Count(g.excluded, x) == if Covered(table, g.mask, x) then Gap(1, Count(given, x)) else 0
  }

  /** At most two members of the group are not in the list exactly once. */
  ghost predicate FewTaken(given: seq<string>, def: seq<string>) {
    exists rx: seq<string> :: |rx| <= 2 && forall x :: x in rx <==> x in def && Count(given, x) != 1
  }

  lemma {:induction false} CoveredAfter(table: Table, mask: bv8, i: nat, x: string)
    requires i < |table| <= 8 && !Has(mask, i)
    ensures Covered(table, AddBit(mask, i), x) <==> Covered(table, mask, x) || x in table[i]
  {
    hide AddBit, Has;
    forall g | 0 <= g < |table| ensures Has(AddBit(mask, i), g) <==> g == i || Has(mask, g) { BitAdded(mask, i, g); }
  }

  /** An extension of the next group is in no selected one. */
  lemma {:induction false} NotCovered(table: Table, mask: bv8, i: nat, x: string)
    requires GoodTable(table) && i < |table| && x in table[i] && forall k :: i <= k ==> !Has(mask, k)
    ensures !Covered(table, mask, x)
  {
    hide Has, Ascending;
    forall g | 0 <= g < |table| && Has(mask, g) ensures x !in table[g] {
      assert Disjoint(table[g], table[i]);
    }
  }

  lemma {:induction false} AscendingOnce(s: seq<string>, x: string)
    requires Ascending(s)
    ensures Sorted(s) && Count(s, x) == if x in s then 1 else 0
  {
    hide Less;
    if s != [] {
      LessIrreflexive(s[0]);
      assert s == [s[0]] + s[1..];
      AscendingOnce(s[1..], x);
      forall i, j | 0 <= i < j < |s| ensures !Less(s[j], s[i]) {
        if Less(s[j], s[i]) { LessTransitive(s[i], s[j], s[i]); LessIrreflexive(s[i]); }
      }
      if x == s[0] {
        forall k | 1 <= k < |s| ensures s[k] != x { assert Less(s[0], s[k]); }
      }
    }
  }

  lemma {:induction false} TryEncodes(table: Table, i: nat, given: seq<string>, g: Grouping)
    requires GoodTable(table) && i < |table| && Encodes(table, i, given, g)
    requires Try(table, i, g).Some?
    ensures Encodes(table, i + 1, given, Try(table, i, g).value)
  {
    var def := table[i];
    var temp, next := SymDiff(def, g.exts), Try(table, i, g).value;
    hide Has, AddBit, Less, SymDiff, Keep, Disjoint, Covered, Sorted, Count, EncodesAt, FewTaken;
    assert Ascending(def);
    AscendingOnce(def, "");
    SymDiffSorted(def, g.exts, "");
    KeepSorted(temp, def, false);
    hide Ascending;
    forall k | i + 1 <= k ensures !Has(next.mask, k) { BitAdded(g.mask, i, k); }
    forall x ensures EncodesAt(table, given, next, x) { StepCount(table, i, given, g, x); }
    TakesFew(table, i, given, g);
    forall k | 0 <= k < |table| && Has(next.mask, k) ensures FewTaken(given, table[k]) {
      BitAdded(g.mask, i, k);
    }
  }

  lemma {:induction false} TakesFew(table: Table, i: nat, given: seq<string>, g: Grouping)
    requires GoodTable(table) && i < |table| && Encodes(table, i, given, g)
    requires Try(table, i, g).Some?
    ensures FewTaken(given, table[i])
  {
    var rx := Taken(table, i, g);
    assert |rx| <= 2;
    hide Has, AddBit, Taken, Covered, Sorted, Count, EncodesAt, GoodTable, Try;
    forall x ensures x in rx <==> x in table[i] && Count(given, x) != 1 { StepCount(table, i, given, g, x); }
  }

  lemma {:induction false} StepCount(table: Table, i: nat, given: seq<string>, g: Grouping, x: string)
    requires GoodTable(table) && i < |table| && Sorted(g.exts) && EncodesAt(table, given, g, x)
    requires forall k :: i <= k ==> !Has(g.mask, k)
    ensures Try(table, i, g).Some? ==> EncodesAt(table, given, Try(table, i, g).value, x)
    ensures Count(Taken(table, i, g), x) == if x in table[i] then Gap(1, Count(given, x)) else 0
    ensures x in Taken(table, i, g) <==> x in table[i] && Count(given, x) != 1
  {
    var def := table[i];
    var temp := SymDiff(def, g.exts);
    hide *;
    GroupFacts(table, g.mask, i, x);
    SymDiffCount(def, g.exts, x);
    KeepCount(temp, def, true, x);
    KeepCount(temp, def, false, x);
    Combine(table, i, given, g, x);
  }

  lemma {:induction false} GroupFacts(table: Table, mask: bv8, i: nat, x: string)
    requires GoodTable(table) && i < |table| && forall k :: i <= k ==> !Has(mask, k)
    ensures Sorted(table[i]) && Count(table[i], x) == (if x in table[i] then 1 else 0)
    ensures x in table[i] ==> !Covered(table, mask, x)
    ensures Covered(table, AddBit(mask, i), x) <==> Covered(table, mask, x) || x in table[i]
  {
    hide Has, AddBit, Less, Covered, Sorted, Count, Disjoint;
    if x in table[i] { NotCovered(table, mask, i, x); }
    CoveredAfter(table, mask, i, x);
    assert Ascending(table[i]);
    AscendingOnce(table[i], x);
  }

  lemma {:induction false} Combine(table: Table, i: nat, given: seq<string>, g: Grouping, x: string)
    requires i < |table| && EncodesAt(table, given, g, x)
    requires x in table[i] ==> !Covered(table, g.mask, x)
    requires Covered(table, AddBit(g.mask, i), x) <==> Covered(table, g.mask, x) || x in table[i]
    requires Count(table[i], x) == if x in table[i] then 1 else 0
    requires Count(SymDiff(table[i], g.exts), x) == Gap(Count(table[i], x), Count(g.exts, x))
    requires Count(Keep(SymDiff(table[i], g.exts), table[i], true), x) ==
      if (x in table[i]) == true then Count(SymDiff(table[i], g.exts), x) else 0
    requires Count(Keep(SymDiff(table[i], g.exts), table[i], false), x) ==
      if (x in table[i]) == false then Count(SymDiff(table[i], g.exts), x) else 0
    ensures Try(table, i, g).Some? ==> EncodesAt(table, given, Try(table, i, g).value, x)
    ensures Count(Taken(table, i, g), x) == if x in table[i] then Gap(1, Count(given, x)) else 0
    ensures x in Taken(table, i, g) <==> x in table[i] && Count(given, x) != 1
  {
    var rx := Taken(table, i, g);
    CountIn(rx, x);
    CountConcat(rx, g.excluded, x);
    hide Has, AddBit, SymDiff, Keep, Covered, Count;
  }

  lemma {:induction false} GroupedEncodes(table: Table, i: nat, given: seq<string>, g: Grouping)
    requires GoodTable(table) && i <= |table| && Encodes(table, i, given, g)
    ensures Encodes(table, |table|, given, Grouped(table, i, g))
    decreases |table| - i
  {
    hide Try, GoodTable;
    if i < |table| {
      var next := Try(table, i, g);
      if next.Some? {
        TryEncodes(table, i, given, g);
        hide Encodes;
        if |next.value.exts| > 2 {
          GroupedEncodes(table, i + 1, given, next.value);
        } else {
          StillEncodes(table, i + 1, given, next.value);
        }
      } else {
        StillEncodes(table, i, given, g);
        hide Encodes;
        GroupedEncodes(table, i + 1, given, g);
      }
    }
  }

  /** Passing over groups changes nothing. */
  lemma {:induction false} StillEncodes(table: Table, i: nat, given: seq<string>, g: Grouping)
    requires i <= |table| && Encodes(table, i, given, g)
    ensures forall j :: i <= j ==> Encodes(table, j, given, g)
  {
    hide Has, FewTaken, EncodesAt, Sorted;
  }

  /** What the encoding stands for: every given extension, but for those that are listed more than
      once and belong to a selected group. */
  lemma {:induction false} GroupingMeans(table: Table, given: seq<string>, x: string)
    requires GoodTable(table) && Sorted(given)
    ensures var r := Grouped(table, 0, Grouping(given, 0, []));
      Denoted(table, r, x) <==> x in given && !(Count(given, x) > 1 && Covered(table, r.mask, x))
  {
    StartEncodes(table, given);
    GroupedEncodes(table, 0, given, Grouping(given, 0, []));
    var r := Grouped(table, 0, Grouping(given, 0, []));
    CountIn(given, x);
    CountIn(r.exts, x);
    CountIn(r.excluded, x);
    hide Count, Covered, GoodTable, Sorted, Grouped, FewTaken, Has;
    assert EncodesAt(table, given, r, x);
  }

  lemma {:induction false} StartEncodes(table: Table, given: seq<string>)
    requires Sorted(given)
    ensures Encodes(table, 0, given, Grouping(given, 0, []))
  {
    forall k: nat ensures !Has(0, k) {}
  }

  /** So the encoding is right exactly when no extension of a selected group is listed twice. */
  lemma {:induction false} GroupingRightByMask(table: Table, given: seq<string>)
    requires GoodTable(table) && Sorted(given)
    ensures var r := Grouped(table, 0, Grouping(given, 0, []));
      (forall x :: Denoted(table, r, x) <==> x in given) <==>
      (forall x :: Covered(table, r.mask, x) ==> Count(given, x) <= 1)
  {
    hide Denoted, Covered, Grouped, GoodTable, Sorted;
    var r := Grouped(table, 0, Grouping(given, 0, []));
    hide Count;
    forall x ensures Denoted(table, r, x) <==> x in given && !(Count(given, x) > 1 && Covered(table, r.mask, x)) {
      GroupingMeans(table, given, x);
    }
    forall x ensures Count(given, x) > 0 <==> x in given { CountIn(given, x); }
    forall x | Covered(table, r.mask, x) && Count(given, x) > 1 ensures !Denoted(table, r, x) && x in given {}
  }

  /** The parts of the encoding: what is excluded are the members of the selected groups that are not
      given (or given twice), at most two of each group; the listed rest stays in order. */
  lemma {:induction false} GroupingParts(table: Table, given: seq<string>)
    requires GoodTable(table) && Sorted(given)
    ensures var r := Grouped(table, 0, Grouping(given, 0, []));
      && Sorted(r.exts)
      && (forall x :: Count(r.excluded, x) == if Covered(table, r.mask, x) then Gap(1, Count(given, x)) else 0)
      && (forall g :: 0 <= g < |table| && Has(r.mask, g) ==> FewTaken(given, table[g]))
      && (forall x :: x in r.exts ==> !Covered(table, r.mask, x) && x in given)
  {
    StartEncodes(table, given);
    GroupedEncodes(table, 0, given, Grouping(given, 0, []));
    var r := Grouped(table, 0, Grouping(given, 0, []));
    hide Covered, GoodTable, Sorted, Grouped, FewTaken, Has;
    forall x ensures Count(r.excluded, x) == if Covered(table, r.mask, x) then Gap(1, Count(given, x)) else 0 {
      assert EncodesAt(table, given, r, x);
    }
    forall x | x in r.exts ensures !Covered(table, r.mask, x) && x in given {
      CountIn(r.exts, x);
      CountIn(given, x);
      assert EncodesAt(table, given, r, x);
    }
  }

  // ---------------------------------------------------------------- which groups are selected

  lemma {:induction false} NoneFound(table: Table, i: nat, g: Grouping)
    requires i <= |table| <= 8 && forall k :: i <= k ==> !Has(g.mask, k)
    ensures Grouped(table, i, g).mask == 0 <==> g.mask == 0 && forall k :: i <= k < |table| ==> Try(table, k, g).None?
    decreases |table| - i
  {
    if i < |table| {
      var next := Try(table, i, g);
      if next.Some? {
        forall k | i + 1 <= k ensures !Has(next.value.mask, k) { BitAdded(g.mask, i, k); }
        BitAdded(g.mask, i, i);
        assert next.value.mask != 0;
        hide Try, Has, AddBit;
        if |next.value.exts| > 2 { NoneFound(table, i + 1, next.value); }
      } else {
        hide Try, Has, AddBit;
        NoneFound(table, i + 1, g);
      }
    }
  }

  lemma {:induction false} SizeBound(table: Table)
    requires GoodTable(table)
    ensures |table| <= 8
  {}
}
