/** Reading the file extensions of a received search (search/SearchQuery.cpp) and whether they are
    those the sender meant. */
module SearchReceiver {

  import opened Ordering
  import opened SearchCommands
  import opened SearchGroups
  import opened SearchTable

  /** The groups below n that are in the mask, later ones first. */
  function Parsed(table: Table, mask: bv8, n: nat): seq<string>
    requires n <= |table|
  {
    if n == 0 then []
    else if Has(mask, n - 1) then table[n - 1] + Parsed(table, mask, n - 1)
    else Parsed(table, mask, n - 1)
  }

  method ParseSearchExts(flag: bv8) returns (ret: seq<string>)
    ensures ret == Parsed(SEARCH_EXTENSIONS, flag, |SEARCH_EXTENSIONS|)
  {
    ret := [];
    hide Has;
    for i := 0 to |SEARCH_EXTENSIONS|
      invariant ret == Parsed(SEARCH_EXTENSIONS, flag, i)
    {
      if Has(flag, i) {
        ret := SEARCH_EXTENSIONS[i] + ret;
      }
    }
  }

  datatype Lists = Lists(ext: seq<string>, noExt: seq<string>) {
    function Take(p: Param): Lists {
      match p
      case EX(e) => if e == "" then this else this.(ext := ext + [e])
      case RX(e) => if e == "" then this else this.(noExt := noExt + [e])
      case GR(mask) => this.(ext := Parsed(SEARCH_EXTENSIONS, mask, |SEARCH_EXTENSIONS|) + ext)
      case Other(_) => this
    }

    /** What the lists stand for. */
    predicate Asks(x: string) { x in ext && x !in noExt }

    /** What a file name is compared with. */
    function Compared(): seq<string> { SetDiff(ext, noExt) }

    predicate Answer(name: string) {
      ext == [] || exists e :: e in Compared() && EndsWith(name, e)
    }
  }

  predicate EndsWith(name: string, e: string) {
    |name| >= |e| && name[|name| - |e|..] == e
  }

  /** The name is some stem followed by the extension. */
  ghost predicate Ends(name: string, e: string) {
    exists stem :: name == stem + e
  }

  lemma {:induction false} EndsExactly(name: string, e: string)
    ensures EndsWith(name, e) <==> Ends(name, e)
  {
    if EndsWith(name, e) { assert name == name[..|name| - |e|] + e; }
  }

  /** Without exclusions a name is accepted exactly if nothing is listed or it ends in something listed. */
  lemma {:induction false} AnswersByEnd(l: Lists, name: string)
    requires l.noExt == []
    ensures l.Answer(name) <==> l.ext == [] || exists e :: e in l.ext && Ends(name, e)
  {
    NoneToTake(l.ext);
    forall e ensures EndsWith(name, e) <==> Ends(name, e) { EndsExactly(name, e); }
    hide EndsWith, Ends;
  }

  function Read(params: seq<Param>): Lists {
    if params == [] then Lists([], []) else Read(params[..|params| - 1]).Take(params[|params| - 1])
  }

  /** std::set_difference */
  function SetDiff(a: seq<string>, b: seq<string>): seq<string> {
    if a == [] || b == [] then a
    else if Less(a[0], b[0]) then [a[0]] + SetDiff(a[1..], b)
    else if Less(b[0], a[0]) then SetDiff(a, b[1..])
    else SetDiff(a[1..], b[1..])
  }

  class SearchQuery {
    var ext: seq<string>
    var noExt: seq<string>

    constructor (params: seq<Param>)
      ensures Lists(ext, noExt) == Read(params)
    {
      ext, noExt := [], [];
      new;
      for k := 0 to |params|
        invariant Lists(ext, noExt) == Read(params[..k])
      {
        assert params[..k + 1][..k] == params[..k];
        match params[k]
        case EX(e) => if e != "" { ext := ext + [e]; }
        case RX(e) => if e != "" { noExt := noExt + [e]; }
        case GR(mask) => var exts := ParseSearchExts(mask); ext := exts + ext;
        case Other(_) =>
      }
      assert params[..|params|] == params;
    }

    /** The first call applies the exclusions to the list. */
    method HasExt(name: string) returns (r: bool)
      modifies this
      ensures r == Lists(old(ext), old(noExt)).Answer(name)
      ensures ext == Lists(old(ext), old(noExt)).Compared() && (old(ext) != [] ==> noExt == [])
    {
      if ext == [] {
        return true;
      }
      NoneToTake(ext);
      if noExt != [] {
        ext := SetDiff(ext, noExt);
        noExt := [];
      }
      for i := 0 to |ext|
        invariant forall k :: 0 <= k < i ==> !EndsWith(name, ext[k])
      {
        if EndsWith(name, ext[i]) {
          return true;
        }
      }
      r := false;
    }
  }

  lemma {:induction false} NoneToTake(a: seq<string>)
    ensures SetDiff(a, []) == a
  {}

  /** Asking again gives the same answers exactly if the exclusions leave something. */
  lemma {:induction false} AskAgain(l: Lists)
    ensures (forall name :: Lists(l.Compared(), []).Answer(name) == l.Answer(name)) <==>
      l.ext == [] || l.Compared() != []
  {
    var again := Lists(l.Compared(), []);
    NoneToTake(l.Compared());
    assert l.ext == [] ==> l.Compared() == [];
    hide SetDiff, EndsWith;
    if l.ext != [] && l.Compared() == [] {
      assert again.Answer("") && !l.Answer("");
    }
  }

  // ---------------------------------------------------------------- what is asked for

  lemma {:induction false} CountParsed(table: Table, mask: bv8, n: nat, x: string)
    requires GoodTable(table) && n <= |table|
    ensures Count(Parsed(table, mask, n), x) == if exists g :: 0 <= g < n && Has(mask, g) && x in table[g] then 1 else 0
  {
    hide Has, Count;
    if n > 0 {
      CountParsed(table, mask, n - 1, x);
      assert Ascending(table[n - 1]);
      AscendingOnce(table[n - 1], x);
      CountConcat(table[n - 1], Parsed(table, mask, n - 1), x);
      forall g | 0 <= g < n - 1 && x in table[g] ensures x !in table[n - 1] {
        assert Disjoint(table[g], table[n - 1]);
      }
      hide GoodTable;
    } else {
      NothingCounted(x);
    }
  }

  lemma {:induction false} NothingCounted(x: string)
    ensures Count([], x) == 0
  {}

  /** An empty extension is not read. */
  function NonEmpty(s: seq<string>): seq<string> {
    if s == [] then []
    else
      var rest, x := NonEmpty(s[..|s| - 1]), s[|s| - 1];
      if x == "" then rest else rest + [x]
  }

  lemma {:induction false} CountNonEmpty(s: seq<string>, x: string)
    ensures Count(NonEmpty(s), x) == if x == "" then 0 else Count(s, x)
  {
    if s != [] {
      CountNonEmpty(s[..|s| - 1], x);
      assert s == s[..|s| - 1] + [s[|s| - 1]];
    }
  }

  lemma {:induction false} ReadAdds(params: seq<Param>, exts: seq<string>)
    ensures Read(params + Adds(exts)) == Lists(Read(params).ext + NonEmpty(exts), Read(params).noExt)
  {
    if exts == [] {
      assert params + Adds(exts) == params;
    } else {
      ReadAdds(params, exts[..|exts| - 1]);
      assert (params + Adds(exts))[..|params| + |exts| - 1] == params + Adds(exts[..|exts| - 1]);
    }
  }

  lemma {:induction false} ReadRemoves(params: seq<Param>, exts: seq<string>)
    ensures Read(params + Removes(exts)) == Lists(Read(params).ext, Read(params).noExt + NonEmpty(exts))
  {
    if exts == [] {
      assert params + Removes(exts) == params;
    } else {
      ReadRemoves(params, exts[..|exts| - 1]);
      assert (params + Removes(exts))[..|params| + |exts| - 1] == params + Removes(exts[..|exts| - 1]);
    }
  }

  ghost predicate NoExtensions(params: seq<Param>) {
    forall k :: 0 <= k < |params| ==> params[k].Other?
  }

  lemma {:induction false} ReadOthers(params: seq<Param>)
    requires NoExtensions(params)
    ensures Read(params) == Lists([], [])
  {
    if params != [] { ReadOthers(params[..|params| - 1]); }
  }

  lemma {:induction false} ReadGroupInfo(params: seq<Param>, g: Grouping)
    requires NoExtensions(params)
    ensures Read(params + GroupInfo(g)) ==
      Lists(Parsed(SEARCH_EXTENSIONS, g.mask, |SEARCH_EXTENSIONS|) + NonEmpty(g.exts), NonEmpty(g.excluded))
  {
    var some, gr := params + Adds(g.exts), GR(g.mask);
    assert params + GroupInfo(g) == some + [gr] + Removes(g.excluded) by { hide Read, NonEmpty, Adds, Removes; }
    hide Parsed, GroupInfo, SEARCH_EXTENSIONS, Adds, Removes, NonEmpty;
    ReadOthers(params);
    ReadAdds(params, g.exts);
    ReadLast(some, gr);
    hide Read;
    ReadRemoves(some + [gr], g.excluded);
  }

  lemma {:induction false} ReadLast(params: seq<Param>, p: Param)
    ensures Read(params + [p]) == Read(params).Take(p)
  {
    assert (params + [p])[..|params|] == params;
    hide Lists.Take;
  }

  /** How often an extension is in the two lists of the grouped form. */
  lemma {:induction false} GroupedCounts(params: seq<Param>, exts: seq<string>, x: string)
    requires NoExtensions(params)
    ensures var g, l := GroupingOf(exts), Read(params + GroupInfo(GroupingOf(exts)));
      var covered := Covered(SEARCH_EXTENSIONS, g.mask, x);
      && Count(l.ext, x) == (if covered then 1 else if x == "" then 0 else Count(exts, x))
      && Count(l.noExt, x) == (if covered && x != "" then Gap(1, Count(exts, x)) else 0)
  {
    var table, g := SEARCH_EXTENSIONS, GroupingOf(exts);
    TableIsGood();
    ReadGroupInfo(params, g);
    SortSorts(exts);
    hide SEARCH_EXTENSIONS, Sort, Grouped, Has, Parsed, GroupInfo, GoodTable, NonEmpty, Read, NoExtensions, Sorted;
    CountParsed(table, g.mask, |table|, x);
    CountNonEmpty(g.exts, x);
    CountNonEmpty(g.excluded, x);
    CountConcat(Parsed(table, g.mask, |table|), NonEmpty(g.exts), x);
    GroupedAt(table, Sort(exts), x);
    assert Count(Sort(exts), x) == Count(exts, x);
    hide Count;
  }

  lemma {:induction false} GroupedAt(table: Table, given: seq<string>, x: string)
    requires GoodTable(table) && Sorted(given)
    ensures EncodesAt(table, given, Grouped(table, 0, Grouping(given, 0, [])), x)
  {
    StartEncodes(table, given);
    GroupedEncodes(table, 0, given, Grouping(given, 0, []));
    hide Grouped, EncodesAt, GoodTable, Sorted;
  }

  /** Both forms ask for the extensions of the search, if none is listed twice. */
  lemma {:induction false} BothFormsAskTheSame(c: Command, exts: seq<string>, x: string)
    requires NoExtensions(c.params) && forall y :: Count(exts, y) <= 1
    ensures Read(ForOthers(c, exts).params).Asks(x) <==> x in exts && x != ""
    ensures Read(ForGroups(c, GroupingOf(exts)).params).Asks(x) <==> x in exts && x != ""
  {
    var l := Read(c.params + GroupInfo(GroupingOf(exts)));
    ReadOthers(c.params);
    ReadAdds(c.params, exts);
    CountNonEmpty(exts, x);
    CountIn(NonEmpty(exts), x);
    CountIn(exts, x);
    GroupedCounts(c.params, exts, x);
    NeverEmpty(GroupingOf(exts).mask);
    CountIn(l.ext, x);
    CountIn(l.noExt, x);
    assert NonEmpty(exts) == [] + NonEmpty(exts);
    hide SEARCH_EXTENSIONS, GroupingOf, GroupInfo, Covered, Read, NonEmpty, Count;
  }

  lemma {:induction false} NeverEmpty(mask: bv8)
    ensures !Covered(SEARCH_EXTENSIONS, mask, "")
  {
    hide Has;
    forall g | 0 <= g < |SEARCH_EXTENSIONS| ensures "" !in SEARCH_EXTENSIONS[g] {}
  }

  // ---------------------------------------------------------------- what the receiver compares with

  /** The exclusions stand in the order of the list, and everything in front of each, back to the one
      before it, is smaller. */
  ghost predicate Aligned(a: seq<string>, b: seq<string>)
    decreases |b|
  {
    b == [] || exists k ::
      0 <= k < |a| && a[k] == b[0] && (forall j :: 0 <= j < k ==> Less(a[j], b[0])) && Aligned(a[k + 1..], b[1..])
  }

  ghost predicate Once(s: seq<string>) {
    forall i, j :: 0 <= i < j < |s| ==> s[i] != s[j]
  }

  lemma {:induction false} AlignedInside(a: seq<string>, b: seq<string>, x: string)
    requires Aligned(a, b) && x in b
    ensures x in a
    decreases |b|
  {
    var k :| 0 <= k < |a| && a[k] == b[0] && (forall j :: 0 <= j < k ==> Less(a[j], b[0])) &&
      Aligned(a[k + 1..], b[1..]);
    if x != b[0] { AlignedInside(a[k + 1..], b[1..], x); }
  }

  lemma {:induction false} Untouched(a: seq<string>, b: seq<string>, x: string)
    requires x in a && x !in b
    ensures x in SetDiff(a, b)
  {
    if a != [] && b != [] {
      hide Less;
      if Less(a[0], b[0]) {
        if x != a[0] { Untouched(a[1..], b, x); }
      } else if Less(b[0], a[0]) {
        Untouched(a, b[1..], x);
      } else {
        LessTotal(a[0], b[0]);
        Untouched(a[1..], b[1..], x);
      }
    }
  }

  lemma {:induction false} SetDiffInside(a: seq<string>, b: seq<string>, x: string)
    requires x in SetDiff(a, b)
    ensures x in a
  {
    if a != [] && b != [] {
      hide Less;
      if Less(a[0], b[0]) {
        if x != a[0] { SetDiffInside(a[1..], b, x); }
      } else if Less(b[0], a[0]) {
        SetDiffInside(a, b[1..], x);
      } else {
        SetDiffInside(a[1..], b[1..], x);
      }
    }
  }

  /** `k` is where the first exclusion stands. */
  ghost predicate StartsAt(a: seq<string>, b: seq<string>, k: nat)
    requires b != []
  {
    && k < |a| && a[k] == b[0] && (forall j :: 0 <= j < k ==> Less(a[j], b[0]))
    && Aligned(a[k + 1..], b[1..])
  }

  lemma {:induction false} AlignedSomewhere(a: seq<string>, b: seq<string>)
    requires b != []
    ensures Aligned(a, b) <==> exists k: nat :: StartsAt(a, b, k)
  {
    hide Less;
    if Aligned(a, b) {
      var k :| 0 <= k < |a| && a[k] == b[0] && (forall j :: 0 <= j < k ==> Less(a[j], b[0])) &&
        Aligned(a[k + 1..], b[1..]);
      hide Aligned;
      assert StartsAt(a, b, k);
    }
  }

  lemma {:induction false} AlignedLater(a: seq<string>, b: seq<string>, k: nat)
    requires a != [] && b != [] && Less(a[0], b[0])
    ensures StartsAt(a[1..], b, k) <==> StartsAt(a, b, k + 1)
  {
    hide Less, Aligned;
    var rest := a[1..];
    if k < |rest| {
      assert rest[k + 1..] == a[k + 2..];
      assert forall j :: 1 <= j < k + 1 ==> a[j] == rest[j - 1];
      assert forall j :: 0 <= j < k ==> rest[j] == a[j + 1];
    }
  }

  /** One element that stays is skipped. */
  lemma {:induction false} AlignedTail(a: seq<string>, b: seq<string>)
    requires a != [] && b != [] && Less(a[0], b[0])
    ensures Aligned(a, b) <==> Aligned(a[1..], b)
  {
    LessIrreflexive(b[0]);
    AlignedSomewhere(a, b);
    AlignedSomewhere(a[1..], b);
    assert !StartsAt(a, b, 0);
    hide Less, Aligned, StartsAt;
    if k: nat :| StartsAt(a[1..], b, k) { AlignedLater(a, b, k); }
    if k: nat :| StartsAt(a, b, k) { AlignedLater(a, b, k - 1); }
  }

  ghost predicate Right(a: seq<string>, b: seq<string>) {
    forall x :: x in SetDiff(a, b) <==> x in a && x !in b
  }

  /** The exclusions come from the first of them on. */
  lemma {:induction false} AlignedFrom(a: seq<string>, b: seq<string>, x: string)
    requires Once(a) && Aligned(a, b) && b != [] && Less(a[0], b[0])
    ensures a[0] !in b
  {
    var k :| 0 <= k < |a| && a[k] == b[0] && (forall j :: 0 <= j < k ==> Less(a[j], b[0])) &&
      Aligned(a[k + 1..], b[1..]);
    LessIrreflexive(b[0]);
    hide Less, Aligned;
    forall y | y in b[1..] ensures y != a[0] { AlignedInside(a[k + 1..], b[1..], y); }
    assert b == [b[0]] + b[1..];
  }

  lemma {:induction false} KeptWrongly(a: seq<string>, b: seq<string>)
    requires Once(a) && a != [] && b != [] && Less(a[0], b[0]) && a[0] in b
    ensures !Right(a, b) && !Aligned(a, b)
  {
    assert a[0] in SetDiff(a, b);
    hide Less, Once;
    if Aligned(a, b) { AlignedFrom(a, b, a[0]); }
  }

  lemma {:induction false} RightTail(a: seq<string>, b: seq<string>)
    requires Once(a) && a != [] && b != [] && Less(a[0], b[0]) && a[0] !in b
    ensures Right(a, b) <==> Right(a[1..], b)
  {
    var d := SetDiff(a[1..], b);
    hide Less;
    assert SetDiff(a, b) == [a[0]] + d;
    forall x | x in d ensures x in a[1..] { SetDiffInside(a[1..], b, x); }
    hide SetDiff;
    assert a == [a[0]] + a[1..];
    forall x | x != a[0] ensures (x in SetDiff(a, b) <==> x in d) && (x in a <==> x in a[1..]) {}
  }

  lemma {:induction false} RightBoth(a: seq<string>, b: seq<string>)
    requires Once(a) && Once(b) && a != [] && b != [] && a[0] == b[0]
    ensures Right(a, b) <==> Right(a[1..], b[1..])
    ensures Aligned(a, b) <==> Aligned(a[1..], b[1..])
  {
    var d := SetDiff(a[1..], b[1..]);
    LessIrreflexive(a[0]);
    hide Less;
    assert SetDiff(a, b) == d;
    forall x | x in d ensures x in a[1..] { SetDiffInside(a[1..], b[1..], x); }
    hide SetDiff;
    assert a == [a[0]] + a[1..] && b == [b[0]] + b[1..];
    forall x | x != a[0] ensures (x in b <==> x in b[1..]) && (x in a <==> x in a[1..]) {}
  }

  /** std::set_difference wants sorted lists.  On these unsorted ones it takes the exclusions away
      exactly when they are aligned. */
  lemma {:induction false} RightExactly(a: seq<string>, b: seq<string>)
    requires Once(a) && Once(b) && forall x :: x in b ==> x in a
    ensures Right(a, b) <==> Aligned(a, b)
    decreases |a| + |b|
  {
    hide Less;
    assert b != [] ==> b[0] in a;
    if b == [] {
      NoneToTake(a);
    } else if Less(a[0], b[0]) {
      AlignedTail(a, b);
      if a[0] in b {
        KeptWrongly(a, b);
      } else {
        RightExactly(a[1..], b);
        RightTail(a, b);
      }
    } else if Less(b[0], a[0]) {
      Untouched(a, b[1..], b[0]);
      LessAsymmetric(a[0], b[0]);
      LessIrreflexive(a[0]);
      assert !Aligned(a, b);
    } else {
      LessTotal(a[0], b[0]);
      assert a == [a[0]] + a[1..];
      forall x | x in b[1..] ensures x in a[1..] { assert x in b && x != b[0]; }
      RightExactly(a[1..], b[1..]);
      RightBoth(a, b);
    }
  }
}
