/** When the receiver of a grouped search (search/SearchQuery.cpp, hasExt) compares file names with
    other extensions than the sender meant. */
module SearchMisread {

  import opened Ordering
  import opened SearchAlignment
  import opened SearchCommands
  import opened SearchDifference
  import opened SearchGroups
  import opened SearchReceiver
  import opened SearchSelection
  import opened SearchTable

  // ---------------------------------------------------------------- the condition

  lemma {:induction false} NonEmptySame(s: seq<string>)
    requires "" !in s
    ensures NonEmpty(s) == s
  {
    if s != [] {
      NonEmptySame(s[..|s| - 1]);
      assert s == s[..|s| - 1] + [s[|s| - 1]];
    }
  }

  /** The lists of the receiver, in terms of the sorted extensions. */
  lemma {:induction false} ListsRead(params: seq<Param>, exts: seq<string>)
    requires NoExtensions(params)
    ensures var table, given, l := SEARCH_EXTENSIONS, Sort(exts), Read(params + GroupInfo(GroupingOf(exts)));
      && l.ext == Used(table, given, |table|) + NonEmpty(GroupingOf(exts).exts)
      && l.noExt == Excluded(table, given, |table|)
  {
    var table, given, g, start := SEARCH_EXTENSIONS, Sort(exts), GroupingOf(exts), Grouping(Sort(exts), 0, []);
    TableIsGood();
    TableIsBig();
    SortSorts(exts);
    GroupingFrom(exts);
    ReadGroupInfo(params, g);
    hide *;
    forall k | 0 <= k < |table| ensures Has(g.mask, k) <==> Cheap(given, table[k]) { SelectedExactly(table, given, k); }
    UsedIsParsed(table, given, g.mask, |table|);
    StartEncodes(table, given);
    NothingExcluded(table, given);
    ExcludedList(table, 0, given, start);
    NoneEmpty(table, given, |table|);
    NonEmptySame(g.excluded);
  }

  lemma {:induction false} NothingExcluded(table: Table, given: seq<string>)
    ensures Excluded(table, given, 0) == []
  {}

  lemma {:induction false} NoneEmpty(table: Table, given: seq<string>, n: nat)
    requires n <= |table| && table == SEARCH_EXTENSIONS
    ensures "" !in Excluded(table, given, n)
  {
    hide Cheap, SEARCH_EXTENSIONS, Extra;
    if n > 0 {
      NoneEmpty(table, given, n - 1);
      NoEmptyMember(n - 1);
      TableIsGood();
      GoodGroup(table, n - 1);
      ExtraSorted(given, table[n - 1]);
    }
  }

  lemma {:induction false} NoEmptyMember(k: nat)
    ensures k < |SEARCH_EXTENSIONS| ==> "" !in SEARCH_EXTENSIONS[k]
  {}

  lemma {:induction false} GroupingFrom(exts: seq<string>)
    ensures GroupingOf(exts) == Grouped(SEARCH_EXTENSIONS, 0, Grouping(Sort(exts), 0, []))
  {
    hide Grouped, Sort, SEARCH_EXTENSIONS;
  }

  lemma {:induction false} SameCount(s: seq<string>, t: seq<string>, x: string)
    requires multiset(s) == multiset(t)
    ensures Count(s, x) == Count(t, x) && (x in s <==> x in t)
  {
    CountIn(s, x);
    CountIn(t, x);
  }

  /** The order in which extensions are given does not matter. */
  lemma {:induction false} SameReading(table: Table, s: seq<string>, t: seq<string>)
    requires multiset(s) == multiset(t)
    ensures ReadsRight(table, s) <==> ReadsRight(table, t)
  {
    forall k | 0 <= k < |table| ensures Cheap(s, table[k]) <==> Cheap(t, table[k]) { SameCost(s, t, table[k]); }
    forall x ensures (x in s <==> x in t) && Count(s, x) == Count(t, x) { SameCount(s, t, x); }
    hide Cheap, Less, Count;
    forall k, x ensures InTheWay(table, s, k, x) <==> InTheWay(table, t, k, x) {
      assert forall h :: 0 <= h < |table| ==> (WayFrom(table, s, k, h, x) <==> WayFrom(table, t, k, h, x));
    }
    hide InTheWay;
  }

  /** The members of the groups used are those that are covered; the other extensions are sent as they are. */
  lemma {:induction false} PartsRead(params: seq<Param>, exts: seq<string>, x: string)
    requires NoExtensions(params)
    ensures var table, g := SEARCH_EXTENSIONS, GroupingOf(exts);
      var covered := Covered(table, g.mask, x);
      && (x in Used(table, Sort(exts), |table|) <==> covered)
      && (x in NonEmpty(g.exts) <==> !covered && x in exts && x != "")
      && (x in Excluded(table, Sort(exts), |table|) <==> covered && x != "" && Count(exts, x) != 1)
      && (covered ==> x != "")
  {
    var table, given, g := SEARCH_EXTENSIONS, Sort(exts), GroupingOf(exts);
    var l := Read(params + GroupInfo(g));
    TableIsGood();
    TableIsBig();
    SortSorts(exts);
    GroupingFrom(exts);
    hide *;
    ListsRead(params, exts);
    GroupedCounts(params, exts, x);
    NeverEmpty(g.mask);
    forall k | 0 <= k < |table| ensures Has(g.mask, k) <==> Cheap(given, table[k]) { SelectedExactly(table, given, k); }
    UsedIsParsed(table, given, g.mask, |table|);
    CountParsed(table, g.mask, |table|, x);
    IsCovered(table, g.mask, x);
    CountConcat(Used(table, given, |table|), NonEmpty(g.exts), x);
    CountIn(Used(table, given, |table|), x);
    CountIn(NonEmpty(g.exts), x);
    CountIn(l.noExt, x);
    CountIn(exts, x);
    Gaps(Count(exts, x));
  }

  lemma {:induction false} Gaps(n: nat)
    ensures Gap(1, n) == if n == 0 then 1 else n - 1
  {}

  lemma {:induction false} IsCovered(table: Table, mask: bv8, x: string)
    ensures Covered(table, mask, x) <==> exists g :: 0 <= g < |table| && Has(mask, g) && x in table[g]
  {
    hide Has;
  }

  lemma {:induction false} ComparedIs(l: Lists)
    ensures l.Compared() == SetDiff(l.ext, l.noExt)
  {}

  /** One extension: it is compared with wrongly exactly if taking away the exclusions goes wrong for it. */
  lemma {:induction false} ComparedAt(params: seq<Param>, exts: seq<string>, x: string)
    requires NoExtensions(params)
    ensures var used, excluded := Used(SEARCH_EXTENSIONS, Sort(exts), |SEARCH_EXTENSIONS|),
      Excluded(SEARCH_EXTENSIONS, Sort(exts), |SEARCH_EXTENSIONS|);
      (x in Read(params + GroupInfo(GroupingOf(exts))).Compared() <==> x in exts && x != "") <==>
        (x in SetDiff(used, excluded) <==> x in used && (x in excluded ==> x in Sort(exts)))
  {
    var table, given, g := SEARCH_EXTENSIONS, Sort(exts), GroupingOf(exts);
    var used, excluded, rest := Used(table, given, |table|), Excluded(table, given, |table|), NonEmpty(g.exts);
    SortSorts(exts);
    hide *;
    ListsRead(params, exts);
    ComparedIs(Read(params + GroupInfo(g)));
    PartsRead(params, exts, x);
    SameCount(given, exts, x);
    CountIn(exts, x);
    forall y | y in rest ensures y !in excluded { PartsRead(params, exts, y); }
    AreApart(rest, excluded);
    RestAside(used, rest, excluded, x);
    if x in SetDiff(used, excluded) { SetDiffInside(used, excluded, x); }
  }

  lemma {:induction false} AreApart(q: seq<string>, b: seq<string>)
    requires forall x :: x in q ==> x !in b
    ensures Apart(q, b)
  {}

  /** For any search the receiver of the grouped form compares with the extensions that were meant exactly
      when, for each extension that is missing of a group in use, all that stands in its way is smaller,
      and for each one that is listed again, something larger does.  In the way are the members of later
      groups in use, behind the last one that is missing there. */
  lemma {:induction false} MisreadExactly(params: seq<Param>, exts: seq<string>)
    requires NoExtensions(params)
    ensures ComparesRight(params, exts) <==> ReadsRight(SEARCH_EXTENSIONS, exts)
  {
    var table, given := SEARCH_EXTENSIONS, Sort(exts);
    TableIsGood();
    SortSorts(exts);
    forall x ensures (x in Read(params + GroupInfo(GroupingOf(exts))).Compared() <==> x in exts && x != "") <==>
      (x in SetDiff(Used(table, given, |table|), Excluded(table, given, |table|)) <==>
        x in Used(table, given, |table|) && (x in Excluded(table, given, |table|) ==> x in given))
    {
      ComparedAt(params, exts, x);
    }
    hide Lists.Compared, Read, GroupInfo, GroupingOf, Used, Excluded, SetDiff;
    hide Sort, ReadsRight, GoodTable, SEARCH_EXTENSIONS;
    HandledExactly(table, given);
    SameReading(table, given, exts);
  }

  ghost predicate ComparesRight(params: seq<Param>, exts: seq<string>) {
    forall x :: x in Read(params + GroupInfo(GroupingOf(exts))).Compared() <==> x in exts && x != ""
  }

  /** With one group in use the receiver is right exactly if no member of it is listed twice. */
  lemma {:induction false} OneGroupExactly(params: seq<Param>, exts: seq<string>)
    requires NoExtensions(params)
    requires forall k, h :: 0 <= k < h < |SEARCH_EXTENSIONS| ==>
      !Cheap(exts, SEARCH_EXTENSIONS[k]) || !Cheap(exts, SEARCH_EXTENSIONS[h])
    ensures ComparesRight(params, exts) <==>
      forall k, e :: 0 <= k < |SEARCH_EXTENSIONS| && Cheap(exts, SEARCH_EXTENSIONS[k]) && e in SEARCH_EXTENSIONS[k] ==>
        Count(exts, e) <= 1
  {
    MisreadExactly(params, exts);
    NoneInTheWay(SEARCH_EXTENSIONS, exts);
    hide *;
  }

  lemma {:induction false} NoneInTheWay(table: Table, given: seq<string>)
    requires forall k, h :: 0 <= k < h < |table| ==> !Cheap(given, table[k]) || !Cheap(given, table[h])
    ensures ReadsRight(table, given) <==>
      forall k, e :: 0 <= k < |table| && Cheap(given, table[k]) && e in table[k] ==> Count(given, e) <= 1
  {
    hide Cheap, Less, Count;
    forall n, x | 0 < n <= |table| && Cheap(given, table[n - 1]) ensures !InTheWay(table, given, n, x) {}
  }

  // ---------------------------------------------------------------- answers

  ghost predicate EndsIn(name: string, s: seq<string>) {
    exists e :: e in s && Ends(name, e)
  }

  /** Each extension of s ends in one of t. */
  ghost predicate Reduces(s: seq<string>, t: seq<string>) {
    forall e :: e in s ==> EndsIn(e, t)
  }

  lemma {:induction false} EndsTransitive(name: string, e: string, f: string)
    requires Ends(name, e) && Ends(e, f)
    ensures Ends(name, f)
  {
    var a :| name == a + e;
    var b :| e == b + f;
    assert name == (a + b) + f;
  }

  lemma {:induction false} EndsItself(e: string)
    ensures Ends(e, e)
  {
    assert e == [] + e;
  }

  lemma {:induction false} NameReduces(s: seq<string>, t: seq<string>, name: string)
    requires Reduces(s, t) && EndsIn(name, s)
    ensures EndsIn(name, t)
  {
    hide Ends;
    var e :| e in s && Ends(name, e);
    var f :| f in t && Ends(e, f);
    EndsTransitive(name, e, f);
  }

  /** Two lists select the same names exactly if each extension of one ends in one of the other. */
  lemma {:induction false} SameNames(s: seq<string>, t: seq<string>)
    ensures (forall name :: EndsIn(name, s) <==> EndsIn(name, t)) <==> Reduces(s, t) && Reduces(t, s)
  {
    forall e: string ensures Ends(e, e) { EndsItself(e); }
    hide Ends;
    if Reduces(s, t) && Reduces(t, s) {
      forall name ensures EndsIn(name, s) <==> EndsIn(name, t) {
        if EndsIn(name, s) { NameReduces(s, t, name); }
        if EndsIn(name, t) { NameReduces(t, s, name); }
      }
    }
  }

  ghost predicate Inside(s: seq<string>, t: seq<string>) {
    forall x :: x in s ==> x in t
  }

  /** No extension ends in another one. */
  ghost predicate SuffixFree(s: seq<string>) {
    forall e, f :: e in s && f in s && Ends(e, f) ==> e == f
  }

  lemma {:induction false} FreeReduces(s: seq<string>, t: seq<string>, all: seq<string>)
    requires SuffixFree(all) && (forall x :: x in s ==> x in all) && (forall x :: x in t ==> x in all)
    ensures Reduces(s, t) <==> Inside(s, t)
  {
    forall e: string ensures Ends(e, e) { EndsItself(e); }
    hide Ends;
  }

  lemma {:induction false} AnswerIs(l: Lists, name: string)
    ensures l.Answer(name) <==> l.ext == [] || EndsIn(name, l.Compared())
    ensures forall x :: x in l.Compared() ==> x in l.ext
  {
    forall x | x in l.Compared() ensures x in l.ext { SetDiffInside(l.ext, l.noExt, x); }
    forall e ensures EndsWith(name, e) <==> Ends(name, e) { EndsExactly(name, e); }
    hide Ends, EndsWith, Lists.Compared;
  }

  /** The receivers of both forms answer the same for every file name. */
  ghost predicate AnswersAgree(params: seq<Param>, exts: seq<string>) {
    forall name ::
      Read(params + GroupInfo(GroupingOf(exts))).Answer(name) <==> Read(params + Adds(exts)).Answer(name)
  }

  /** Whatever the receiver compares with, and all that was meant, is in the list before the exclusions. */
  lemma {:induction false} AllListed(params: seq<Param>, exts: seq<string>)
    requires NoExtensions(params)
    ensures var l := Read(params + GroupInfo(GroupingOf(exts)));
      && (forall x :: x in exts && x != "" ==> x in l.ext)
      && (l.ext == [] <==> NonEmpty(exts) == [])
  {
    var table, g := SEARCH_EXTENSIONS, GroupingOf(exts);
    var l := Read(params + GroupInfo(g));
    var used, rest := Used(table, Sort(exts), |table|), NonEmpty(g.exts);
    SortSorts(exts);
    hide *;
    ListsRead(params, exts);
    forall x | x in exts && x != "" ensures x in l.ext { PartsRead(params, exts, x); }
    forall x ensures x in NonEmpty(exts) <==> x in exts && x != "" { InNonEmpty(exts, x); }
    if NonEmpty(exts) == [] && l.ext != [] {
      var x := l.ext[0];
      PartsRead(params, exts, x);
      assert x in used;
      NoneUsed(exts);
    }
    if NonEmpty(exts) != [] { assert NonEmpty(exts)[0] in NonEmpty(exts); }
  }

  lemma {:induction false} InNonEmpty(exts: seq<string>, x: string)
    ensures x in NonEmpty(exts) <==> x in exts && x != ""
  {
    CountNonEmpty(exts, x);
    CountIn(exts, x);
    CountIn(NonEmpty(exts), x);
  }

  /** Without an extension of it given, no group is used. */
  lemma {:induction false} NoneUsed(exts: seq<string>)
    requires forall x :: x in exts ==> x == ""
    ensures Used(SEARCH_EXTENSIONS, Sort(exts), |SEARCH_EXTENSIONS|) == []
  {
    SortSorts(exts);
    TableIsBig();
    hide *;
    forall k | 0 <= k < |SEARCH_EXTENSIONS| ensures !Cheap(Sort(exts), SEARCH_EXTENSIONS[k]) {
      var def := SEARCH_EXTENSIONS[k];
      NoEmptyMember(k);
      forall x | x in def ensures Count(Sort(exts), x) == 0 { SameCount(Sort(exts), exts, x); CountIn(exts, x); }
      AllCost(Sort(exts), def);
      IsCheap(Sort(exts), def);
      BigAt(SEARCH_EXTENSIONS, k);
    }
    NoGroups(SEARCH_EXTENSIONS, Sort(exts), |SEARCH_EXTENSIONS|);
  }

  lemma {:induction false} NoGroups(table: Table, given: seq<string>, n: nat)
    requires n <= |table| && forall k :: 0 <= k < n ==> !Cheap(given, table[k])
    ensures Used(table, given, n) == []
  {
    hide Cheap;
    if n > 0 { NoGroups(table, given, n - 1); }
  }

  /** Both receivers answer the same exactly if each extension that is compared with ends in one that
      was meant, and the other way round. */
  lemma {:induction false} AnswersExactly(params: seq<Param>, exts: seq<string>)
    requires NoExtensions(params)
    ensures var compared := Read(params + GroupInfo(GroupingOf(exts))).Compared();
      AnswersAgree(params, exts) <==> Reduces(compared, NonEmpty(exts)) && Reduces(NonEmpty(exts), compared)
  {
    var l, plain := Read(params + GroupInfo(GroupingOf(exts))), Read(params + Adds(exts));
    var compared, meant := l.Compared(), NonEmpty(exts);
    ReadOthers(params);
    ReadAdds(params, exts);
    AllListed(params, exts);
    NoneToTake(meant);
    assert plain.ext == meant && plain.Compared() == meant;
    forall name ensures (l.Answer(name) <==> plain.Answer(name)) <==> (EndsIn(name, compared) <==> EndsIn(name, meant))
    {
      AnswerIs(l, name);
      AnswerIs(plain, name);
      hide *;
    }
    hide Read, NonEmpty, GroupingOf, GroupInfo, Adds, EndsIn, Reduces, Lists.Compared, Lists.Answer;
    SameNames(compared, meant);
  }

  /** So they do whenever the receiver compares with what was meant; and only then, if no extension of the
      search or of a group in use ends in another one. */
  lemma {:induction false} AnswersRightExactly(params: seq<Param>, exts: seq<string>)
    requires NoExtensions(params)
    ensures ReadsRight(SEARCH_EXTENSIONS, exts) ==> AnswersAgree(params, exts)
    ensures SuffixFree(Read(params + GroupInfo(GroupingOf(exts))).ext) ==>
      (AnswersAgree(params, exts) <==> ReadsRight(SEARCH_EXTENSIONS, exts))
  {
    var l := Read(params + GroupInfo(GroupingOf(exts)));
    var compared, meant := l.Compared(), NonEmpty(exts);
    hide *;
    MisreadExactly(params, exts);
    RightIs(params, exts);
    AnswersExactly(params, exts);
    AllListed(params, exts);
    AnswerIs(l, "");
    forall x ensures x in meant <==> x in exts && x != "" { InNonEmpty(exts, x); }
    if SuffixFree(l.ext) {
      FreeReduces(compared, meant, l.ext);
      FreeReduces(meant, compared, l.ext);
    }
    if ReadsRight(SEARCH_EXTENSIONS, exts) { SameReduces(compared, meant); SameReduces(meant, compared); }
  }

  lemma {:induction false} RightIs(params: seq<Param>, exts: seq<string>)
    ensures var compared := Read(params + GroupInfo(GroupingOf(exts))).Compared();
      ComparesRight(params, exts) <==> Inside(compared, NonEmpty(exts)) && Inside(NonEmpty(exts), compared)
  {
    hide Read, GroupInfo, GroupingOf, NonEmpty, Lists.Compared;
    var compared, meant := Read(params + GroupInfo(GroupingOf(exts))).Compared(), NonEmpty(exts);
    forall x ensures x in meant <==> x in exts && x != "" { InNonEmpty(exts, x); }
    if ComparesRight(params, exts) {
      forall x | x in compared ensures x in meant {}
      forall x | x in meant ensures x in compared {}
    }
    if Inside(compared, meant) && Inside(meant, compared) {
      forall x ensures x in compared <==> x in exts && x != "" { assert x in compared ==> x in meant; }
    }
  }

  lemma {:induction false} SameReduces(s: seq<string>, t: seq<string>)
    requires Inside(s, t)
    ensures Reduces(s, t)
  {
    forall e: string ensures Ends(e, e) { EndsItself(e); }
    hide Ends;
  }

  // ---------------------------------------------------------------- two groups

  lemma {:induction false} TableParts()
    ensures |SEARCH_EXTENSIONS| == 6 && SEARCH_EXTENSIONS[0] == AUDIO && SEARCH_EXTENSIONS[5] == VIDEO
    ensures AUDIO != [] && AUDIO[0] == "ape" && AUDIO[|AUDIO| - 1] == "wma" && |VIDEO| > 3 && VIDEO[0] == "3gp" &&
      VIDEO[|VIDEO| - 1] == "wmv"
    ensures forall g :: 0 <= g < 6 ==> |SEARCH_EXTENSIONS[g]| > 2
  {}

  /** Every audio extension comes before "wmv". */
  lemma {:induction false} BeforeWmv(e: string)
    requires e in AUDIO
    ensures !Less("wmv", e)
  {
    TableParts();
    TableIsGood();
    GoodGroup(SEARCH_EXTENSIONS, 0);
    assert Less("wma", "wmv");
    LessIrreflexive("wmv");
    hide *;
    LastIsGreatest(AUDIO, e);
    if Less("wmv", e) {
      if e != "wma" { LessTransitive("wmv", e, "wma"); }
      LessTransitive("wmv", "wma", "wmv");
    }
  }

  lemma {:induction false} LastIsGreatest(s: seq<string>, x: string)
    requires Ascending(s) && x in s
    ensures x == s[|s| - 1] || Less(x, s[|s| - 1])
  {
    hide Less;
    var k :| 0 <= k < |s| && s[k] == x;
  }

  /** Whenever audio and video are in use, an audio extension is missing but not "wmv", and nothing is
      missing of the groups in use between them, the receiver is wrong. */
  lemma {:induction false} AudioAndVideoMisread(params: seq<Param>, exts: seq<string>, e: string)
    requires NoExtensions(params)
    requires Cheap(exts, AUDIO) && Cheap(exts, VIDEO) && e in AUDIO && e !in exts && "wmv" in exts
    requires forall k :: 0 < k < 5 && k < |SEARCH_EXTENSIONS| && Cheap(exts, SEARCH_EXTENSIONS[k]) ==>
      Full(exts, SEARCH_EXTENSIONS[k])
    ensures !ComparesRight(params, exts)
  {
    var table := SEARCH_EXTENSIONS;
    TableParts();
    TableIsGood();
    GoodGroup(table, 5);
    MisreadExactly(params, exts);
    BeforeWmv(e);
    hide *;
    assert "wmv" in VIDEO by { assert VIDEO[|VIDEO| - 1] in VIDEO; }
    forall y | y in VIDEO && y !in exts ensures Less(y, "wmv") { LastIsGreatest(VIDEO, y); }
    WmvInTheWay(table, exts, e);
  }

  lemma {:induction false} WmvInTheWay(table: Table, given: seq<string>, e: string)
    requires |table| == 6 && Cheap(given, table[0]) && Cheap(given, table[5]) && e in table[0] && e !in given
    requires "wmv" in table[5] && !Less("wmv", e) && forall y :: y in table[5] && y !in given ==> Less(y, "wmv")
    requires forall k :: 0 < k < 5 && Cheap(given, table[k]) ==> Full(given, table[k])
    ensures !ReadsRight(table, given)
  {
    var one, zero := 1, 0;
    hide Less, Cheap;
    assert WayFrom(table, given, one, 5, "wmv");
    assert InTheWay(table, given, zero + 1, "wmv");
  }

  /** All audio and video extensions but the first of each, in any order. */
  ghost predicate MostAudioAndVideo(exts: seq<string>) {
    forall x :: Count(exts, x) == if (x in AUDIO && x != "ape") || (x in VIDEO && x != "3gp") then 1 else 0
  }

  lemma {:induction false} CountTail(s: seq<string>, x: string)
    requires Ascending(s) && s != []
    ensures Count(s[1..], x) == if x in s && x != s[0] then 1 else 0
    ensures x in s[1..] <==> x in s && x != s[0]
  {
    AscendingOnce(s, x);
    CountHead(s, x);
    CountIn(s[1..], x);
  }

  lemma {:induction false} SomeMost()
    ensures AUDIO != [] && VIDEO != [] && MostAudioAndVideo(AUDIO[1..] + VIDEO[1..])
  {
    hide *;
    TableParts();
    TableIsGood();
    GoodGroup(SEARCH_EXTENSIONS, 0);
    GoodGroup(SEARCH_EXTENSIONS, 5);
    var exts := AUDIO[1..] + VIDEO[1..];
    forall x ensures Count(exts, x) == if (x in AUDIO && x != "ape") || (x in VIDEO && x != "3gp") then 1 else 0 {
      ApartGroups(SEARCH_EXTENSIONS, 0, 5, x);
      CountTail(AUDIO, x);
      CountTail(VIDEO, x);
      CountConcat(AUDIO[1..], VIDEO[1..], x);
    }
    IsMost(exts);
  }

  lemma {:induction false} IsMost(exts: seq<string>)
    ensures MostAudioAndVideo(exts) <==>
      forall x :: Count(exts, x) == if (x in AUDIO && x != "ape") || (x in VIDEO && x != "3gp") then 1 else 0
  {
    hide AUDIO, VIDEO, Count;
  }

  lemma {:induction false} ApartGroups(table: Table, g: nat, h: nat, x: string)
    requires GoodTable(table) && g < |table| && h < |table| && g != h
    ensures !(x in table[g] && x in table[h])
  {
    hide Ascending;
    if g < h {
      assert Disjoint(table[g], table[h]);
    } else {
      assert Disjoint(table[h], table[g]);
    }
  }

  lemma {:induction false} AllCost(given: seq<string>, def: seq<string>)
    requires forall x :: x in def ==> Count(given, x) == 0
    ensures Cost(given, def) == |def|
  {
    if def != [] { AllCost(given, def[..|def| - 1]); }
  }

  /** Only the first member has to be taken away. */
  lemma {:induction false} FirstCost(given: seq<string>, def: seq<string>)
    requires def != [] && Ascending(def) && forall x :: x in def ==>
      Gap(1, Count(given, x)) == if x == def[0] then 1 else 0
    ensures Cost(given, def) == 1
  {
    hide Less, Count;
    if |def| > 1 {
      var front, last := def[..|def| - 1], def[|def| - 1];
      LessIrreflexive(last);
      assert Less(def[0], def[|def| - 1]);
      assert Ascending(front) by { assert forall k :: 0 <= k < |front| ==> front[k] == def[k]; }
      FirstCost(given, front);
    } else {
      assert def[..0] == [];
    }
  }

  /** Of these two groups one extension is missing, of the others everything. */
  lemma {:induction false} MostCost(exts: seq<string>, g: nat)
    requires g < |SEARCH_EXTENSIONS| && MostAudioAndVideo(exts)
    ensures Cheap(exts, SEARCH_EXTENSIONS[g]) <==> g == 0 || g == 5
  {
    hide *;
    var table := SEARCH_EXTENSIONS;
    var def := table[g];
    TableParts();
    TableIsGood();
    GoodGroup(table, g);
    IsMost(exts);
    Gaps(0);
    Gaps(1);
    forall x | x in def ensures Count(exts, x) == if (g == 0 || g == 5) && x != def[0] then 1 else 0 {
      if g != 0 { ApartGroups(table, 0, g, x); }
      if g != 5 { ApartGroups(table, g, 5, x); }
    }
    if g == 0 || g == 5 { FirstCost(exts, def); } else { AllCost(exts, def); }
    IsCheap(exts, def);
  }

  lemma {:induction false} IsCheap(given: seq<string>, def: seq<string>)
    ensures Cheap(given, def) <==> Cost(given, def) <= 2
  {}

  /** Asked for all audio and video extensions but "ape" and "3gp", the receiver of the grouped form
      compares with other ones. */
  lemma {:induction false} TwoGroupsMisread(params: seq<Param>, exts: seq<string>)
    requires NoExtensions(params) && MostAudioAndVideo(exts)
    ensures !ComparesRight(params, exts)
  {
    hide *;
    TableParts();
    assert AUDIO[0] in AUDIO && VIDEO[|VIDEO| - 1] in VIDEO;
    IsMost(exts);
    TableIsGood();
    forall g | 0 <= g < 6 ensures Cheap(exts, SEARCH_EXTENSIONS[g]) <==> g == 0 || g == 5 { MostCost(exts, g); }
    forall y ensures Count(exts, y) <= 1 {}
    CountIn(exts, "ape");
    CountIn(exts, "wmv");
    ApartGroups(SEARCH_EXTENSIONS, 0, 5, "ape");
    AudioAndVideoMisread(params, exts, "ape");
  }

  lemma {:induction false} MisreadExample(params: seq<Param>)
    requires NoExtensions(params)
    ensures AUDIO != [] && VIDEO != [] && !ComparesRight(params, AUDIO[1..] + VIDEO[1..])
  {
    hide *;
    SomeMost();
    TwoGroupsMisread(params, AUDIO[1..] + VIDEO[1..]);
  }

  // ---------------------------------------------------------------- an extension listed twice

  /** The audio extensions with "ape" listed twice: the grouping then takes "ape" away. */
  lemma {:induction false} RepeatedIsLost(exts: seq<string>)
    requires forall x :: Count(exts, x) == (if x in AUDIO then 1 else 0) + if x == "ape" then 1 else 0
    ensures !Denoted(SEARCH_EXTENSIONS, GroupingOf(exts), "ape") && "ape" in exts
  {
    hide *;
    var table, given := SEARCH_EXTENSIONS, Sort(exts);
    TableParts();
    TableIsGood();
    TableIsBig();
    GoodGroup(table, 0);
    assert AUDIO[0] in AUDIO;
    SortSorts(exts);
    GroupingFrom(exts);
    Gaps(0);
    Gaps(1);
    Gaps(2);
    forall x ensures Count(given, x) == Count(exts, x) { SameCount(given, exts, x); }
    FirstCost(given, AUDIO);
    IsCheap(given, AUDIO);
    SelectedExactly(table, given, 0);
    CountIn(exts, "ape");
    CoveredBy(table, GroupingOf(exts).mask, 0, "ape");
    GroupingMeans(table, given, "ape");
  }

  lemma {:induction false} SomeRepeated(x: string)
    ensures Count(AUDIO + ["ape"], x) == (if x in AUDIO then 1 else 0) + if x == "ape" then 1 else 0
  {
    hide *;
    TableParts();
    TableIsGood();
    GoodGroup(SEARCH_EXTENSIONS, 0);
    AscendingOnce(AUDIO, x);
    CountConcat(AUDIO, ["ape"], x);
    JustOne("ape", x);
  }

  lemma {:induction false} LostExample()
    ensures "ape" in AUDIO + ["ape"] && !Denoted(SEARCH_EXTENSIONS, GroupingOf(AUDIO + ["ape"]), "ape")
  {
    hide *;
    forall x ensures Count(AUDIO + ["ape"], x) == (if x in AUDIO then 1 else 0) + if x == "ape" then 1 else 0
    {
      SomeRepeated(x);
    }
    RepeatedIsLost(AUDIO + ["ape"]);
  }

  lemma {:induction false} JustOne(y: string, x: string)
    ensures Count([y], x) == if x == y then 1 else 0
  {}

  lemma {:induction false} CoveredBy(table: Table, mask: bv8, g: nat, x: string)
    requires g < |table| && Has(mask, g) && x in table[g]
    ensures Covered(table, mask, x)
  {
    hide Has;
  }
}
