/** The number that stands for a set of groups in a search (hub/AdcHub.cpp, groupExtensions and
    parseSearchExts): each group has a power of two. */
module SearchNumbers {

  import opened Options
  import opened SearchCommands
  import opened SearchGroups
  import opened SearchReceiver
  import opened SearchSelection
  import opened SearchTable

  function Pow2(k: nat): (r: nat)
    ensures r > 0
  {
    if k == 0 then 1 else 2 * Pow2(k - 1)
  }

  /** Pow2(k) for each group k below n of which at most two extensions have to be taken away. */
  ghost function Weights(table: Table, given: seq<string>, n: nat): nat
    requires n <= |table|
  {
    if n == 0 then 0 else Weights(table, given, n - 1) + if Cheap(given, table[n - 1]) then Pow2(n - 1) else 0
  }

  function Weight(mask: bv8, k: nat): nat { if Has(mask, k) then Pow2(k) else 0 }

  function BitWeights(mask: bv8, n: nat): nat {
    if n == 0 then 0 else BitWeights(mask, n - 1) + Weight(mask, n - 1)
  }

  lemma {:induction false} Powers()
    ensures Pow2(0) == 1 && Pow2(1) == 2 && Pow2(2) == 4 && Pow2(3) == 8
    ensures Pow2(4) == 16 && Pow2(5) == 32 && Pow2(6) == 64 && Pow2(7) == 128
  {
    assert Pow2(3) == 8;
    assert Pow2(6) == 64;
  }

  /** The bits of a byte. */
  lemma {:induction false} BinaryDigits(m: bv8)
    ensures m as int ==
      (if m & 1 != 0 then 1 else 0) + (if m & 2 != 0 then 2 else 0) + (if m & 4 != 0 then 4 else 0) +
      (if m & 8 != 0 then 8 else 0) + (if m & 16 != 0 then 16 else 0) + (if m & 32 != 0 then 32 else 0) +
      (if m & 64 != 0 then 64 else 0) + (if m & 128 != 0 then 128 else 0)
  {}

  lemma {:induction false} MaskIsSum(mask: bv8)
    ensures BitWeights(mask, 8) == mask as int
  {
    BinaryDigits(mask);
    Powers();
    BitsBelow(mask);
    hide BitWeights;
  }

  lemma {:induction false} BitsBelow(mask: bv8)
    ensures BitWeights(mask, 8) ==
      Weight(mask, 0) + Weight(mask, 1) + Weight(mask, 2) + Weight(mask, 3) +
      Weight(mask, 4) + Weight(mask, 5) + Weight(mask, 6) + Weight(mask, 7)
  {
    FirstWeights(mask);
    hide Weight, BitWeights;
    WeightAbove(mask, 4);
    WeightAbove(mask, 5);
    WeightAbove(mask, 6);
    WeightAbove(mask, 7);
  }

  lemma {:induction false} FirstWeights(mask: bv8)
    ensures BitWeights(mask, 4) == Weight(mask, 0) + Weight(mask, 1) + Weight(mask, 2) + Weight(mask, 3)
  {
    hide Weight;
    assert BitWeights(mask, 0) == 0;
    WeightAbove(mask, 0);
    WeightAbove(mask, 1);
    WeightAbove(mask, 2);
    WeightAbove(mask, 3);
  }

  lemma {:induction false} WeightAbove(mask: bv8, n: nat)
    ensures BitWeights(mask, n + 1) == BitWeights(mask, n) + Weight(mask, n)
  {
    hide Weight;
  }

  lemma {:induction false} HasDigit(mask: bv8, k: nat)
    requires k < 8
    ensures Has(mask, k) <==> mask as int / Pow2(k) % 2 == 1
  {
    Powers();
    EachBit(mask);
    hide Has, Pow2;
    match k
    case 0 => Digit1(mask);
    case 1 => Digit2(mask);
    case 2 => Digit4(mask);
    case 3 => Digit8(mask);
    case 4 => Digit16(mask);
    case _ => Digits32(mask);
  }

  lemma {:induction false} EachBit(m: bv8)
    ensures (Has(m, 0) <==> m & 1 != 0) && (Has(m, 1) <==> m & 2 != 0) && (Has(m, 2) <==> m & 4 != 0)
    ensures (Has(m, 3) <==> m & 8 != 0) && (Has(m, 4) <==> m & 16 != 0) && (Has(m, 5) <==> m & 32 != 0)
    ensures (Has(m, 6) <==> m & 64 != 0) && (Has(m, 7) <==> m & 128 != 0)
  {}

  lemma {:induction false} Digit1(m: bv8)
    ensures m & 1 != 0 <==> m as int % 2 == 1
  {}

  lemma {:induction false} Digit2(m: bv8)
    ensures m & 2 != 0 <==> m as int / 2 % 2 == 1
  {}

  lemma {:induction false} Digit4(m: bv8)
    ensures m & 4 != 0 <==> m as int / 4 % 2 == 1
  {}

  lemma {:induction false} Digit8(m: bv8)
    ensures m & 8 != 0 <==> m as int / 8 % 2 == 1
  {}

  lemma {:induction false} Digit16(m: bv8)
    ensures m & 16 != 0 <==> m as int / 16 % 2 == 1
  {}

  lemma {:induction false} Digits32(m: bv8)
    ensures m & 32 != 0 <==> m as int / 32 % 2 == 1
    ensures m & 64 != 0 <==> m as int / 64 % 2 == 1
    ensures m & 128 != 0 <==> m as int / 128 % 2 == 1
  {}

  // ---------------------------------------------------------------- sending

  lemma {:induction false} NoBitsBehind(table: Table, i: nat, given: seq<string>, g: Grouping, k: nat)
    requires |table| <= 8 && i <= |table| && |table| <= k && Encodes(table, i, given, g) && GoodTable(table)
    ensures !Has(Grouped(table, i, g).mask, k)
    decreases |table| - i
  {
    NoLaterBits(table, i, given, g);
    hide Has, Encodes, GoodTable, AddBit, Try;
    if i < |table| {
      var next := Try(table, i, g);
      if next.Some? {
        BitAdded(g.mask, i, k);
        TryEncodes(table, i, given, g);
        TryMask(table, i, g);
        if |next.value.exts| > 2 { NoBitsBehind(table, i + 1, given, next.value, k); }
      } else {
        StillEncodes(table, i, given, g);
        NoBitsBehind(table, i + 1, given, g, k);
      }
    }
  }

  lemma {:induction false} TryMask(table: Table, i: nat, g: Grouping)
    requires i < |table| && Try(table, i, g).Some?
    ensures Try(table, i, g).value.mask == AddBit(g.mask, i)
  {
    hide AddBit, Taken;
  }

  lemma {:induction false} SameWeights(table: Table, given: seq<string>, mask: bv8, n: nat)
    requires n <= |table| && forall k :: 0 <= k < n ==> (Has(mask, k) <==> Cheap(given, table[k]))
    ensures BitWeights(mask, n) == Weights(table, given, n)
  {
    hide Has, Cheap, Pow2;
    if n > 0 { SameWeights(table, given, mask, n - 1); }
  }

  lemma {:induction false} NoMoreWeights(mask: bv8, m: nat, n: nat)
    requires m <= n && forall k :: m <= k < n ==> !Has(mask, k)
    ensures BitWeights(mask, n) == BitWeights(mask, m)
  {
    hide Has;
    if m < n { NoMoreWeights(mask, m, n - 1); }
  }

  /** The number sent is the sum of the powers of two of the groups that are used. */
  lemma {:induction false} NumberSent(table: Table, given: seq<string>)
    requires GoodTable(table) && BigGroups(table) && Sorted(given)
    ensures Grouped(table, 0, Grouping(given, 0, [])).mask as int == Weights(table, given, |table|)
  {
    var start, mask := Grouping(given, 0, []), Grouped(table, 0, Grouping(given, 0, [])).mask;
    SizeBound(table);
    StartEncodes(table, given);
    hide Has, Cheap, Grouped, GoodTable, BigGroups, Encodes, Weights, BitWeights;
    forall k | 0 <= k < |table| ensures Has(mask, k) <==> Cheap(given, table[k]) { SelectedExactly(table, given, k); }
    forall k | |table| <= k < 8 ensures !Has(mask, k) { NoBitsBehind(table, 0, given, start, k); }
    MaskIsSum(mask);
    NoMoreWeights(mask, |table|, 8);
    SameWeights(table, given, mask, |table|);
  }

  lemma {:induction false} SameWeight(table: Table, s: seq<string>, t: seq<string>, n: nat)
    requires n <= |table| && multiset(s) == multiset(t)
    ensures Weights(table, s, n) == Weights(table, t, n)
  {
    if n > 0 {
      SameWeight(table, s, t, n - 1);
      SameCost(s, t, table[n - 1]);
    }
  }

  /** The number of a search for any list of extensions. */
  lemma {:induction false} NumberOf(exts: seq<string>)
    ensures GroupingOf(exts).mask as int == Weights(SEARCH_EXTENSIONS, exts, |SEARCH_EXTENSIONS|)
  {
    TableIsGood();
    TableIsBig();
    SortSorts(exts);
    hide SEARCH_EXTENSIONS, GoodTable, BigGroups, Sorted, Sort, Grouped, Weights;
    NumberSent(SEARCH_EXTENSIONS, Sort(exts));
    SameWeight(SEARCH_EXTENSIONS, Sort(exts), exts, |SEARCH_EXTENSIONS|);
  }

  // ---------------------------------------------------------------- receiving

  /** A number stands for the groups whose power of two is in it. */
  lemma {:induction false} NumberRead(table: Table, flag: bv8, n: nat, x: string)
    requires n <= |table| && n <= 8
    ensures x in Parsed(table, flag, n) <==> exists k :: 0 <= k < n && x in table[k] && flag as int / Pow2(k) % 2 == 1
  {
    hide Has, Pow2;
    if n > 0 {
      NumberRead(table, flag, n - 1, x);
      HasDigit(flag, n - 1);
    }
  }
}
