/** What std::set_difference does with lists that are out of order, as in the first call of
    search/SearchQuery.cpp, hasExt. */
module SearchDifference {

  import opened Ordering
  import opened SearchReceiver

  /** The exclusions take away what is not among the given extensions, and nothing else. */
  ghost predicate Handles(a: seq<string>, b: seq<string>, given: seq<string>) {
    forall x :: x in SetDiff(a, b) <==> x in a && (x in b ==> x in given)
  }

  ghost predicate AllSmaller(q: seq<string>, y: string) {
    forall x :: x in q ==> Less(x, y)
  }

  /** Something larger comes before it. */
  ghost predicate Blocked(q: seq<string>, y: string) {
    exists x :: x in q && Less(y, x)
  }

  ghost predicate Apart(q: seq<string>, b: seq<string>) {
    forall x :: x in q ==> x !in b
  }

  lemma {:induction false} DiffHead(a: seq<string>, b: seq<string>)
    requires a != [] && b != []
    ensures SetDiff(a, b) ==
      if Less(a[0], b[0]) then [a[0]] + SetDiff(a[1..], b)
      else if Less(b[0], a[0]) then SetDiff(a, b[1..])
      else SetDiff(a[1..], b[1..])
  {
    hide Less;
  }

  lemma {:induction false} HeadOf(q: seq<string>, r: seq<string>)
    requires q != []
    ensures (q + r)[0] == q[0] && (q + r)[1..] == q[1..] + r && q == [q[0]] + q[1..]
  {}

  /** If all in front of it is smaller, an exclusion is taken away. */
  lemma {:induction false} SkipSmaller(q: seq<string>, y: string, s: seq<string>, b: seq<string>)
    requires AllSmaller(q, y)
    ensures SetDiff(q + ([y] + s), [y] + b) == q + SetDiff(s, b)
  {
    hide Less, SetDiff;
    DiffHead(q + ([y] + s), [y] + b);
    HeadOf([y], b);
    if q == [] {
      assert q + ([y] + s) == [y] + s && [] + SetDiff(s, b) == SetDiff(s, b);
      LessIrreflexive(y);
      HeadOf([y], s);
    } else {
      HeadOf(q, [y] + s);
      SkipSmaller(q[1..], y, s, b);
      HeadOf(q, SetDiff(s, b));
      assert q[0] in q;
    }
  }

  /** If something larger is in front of it, it makes no difference. */
  lemma {:induction false} DropBlocked(q: seq<string>, r: seq<string>, y: string, b: seq<string>)
    requires Blocked(q, y) && y !in q && Apart(q, b)
    ensures SetDiff(q + r, [y] + b) == SetDiff(q + r, b)
    decreases |q| + |b|, 1
  {
    hide Less, SetDiff;
    HeadOf(q, r);
    HeadOf([y], b);
    DiffHead(q + r, [y] + b);
    if Less(q[0], y) {
      LessAsymmetric(q[0], y);
      var x :| x in q && Less(y, x);
      assert x in q[1..];
      DropBlocked(q[1..], r, y, b);
      LessTransitive(q[0], y, x);
      KeepHead(q, r, b);
    } else {
      LessTotal(q[0], y);
    }
  }

  lemma {:induction false} KeepHead(q: seq<string>, r: seq<string>, b: seq<string>)
    requires q != [] && Blocked(q[1..], q[0]) && Apart(q, b)
    ensures SetDiff(q + r, b) == [q[0]] + SetDiff(q[1..] + r, b)
    decreases |q| + |b|, 0
  {
    hide Less, SetDiff;
    HeadOf(q, r);
    if b == [] {
      NoneToTake(q + r);
      NoneToTake(q[1..] + r);
    } else {
      DiffHead(q + r, b);
      LessTotal(q[0], b[0]);
      if !Less(q[0], b[0]) {
        assert b[0] in b && q[0] in q && b == [b[0]] + b[1..];
        var x :| x in q[1..] && Less(q[0], x);
        LessTransitive(b[0], q[0], x);
        KeepHead(q, r, b[1..]);
        DropBlocked(q[1..], r, b[0], b[1..]);
      }
    }
  }

  /** One exclusion, at its only place: it is to be taken away and everything in front of it is
      smaller, or it is to be kept and something in front of it is larger. */
  lemma {:induction false} OneTaken(q: seq<string>, y: string, s: seq<string>, b: seq<string>, given: seq<string>)
    requires Once(q + ([y] + s)) && Apart(q, b) && (y !in given ==> y !in b)
    ensures Handles(q + ([y] + s), [y] + b, given) <==>
      if y in given then Blocked(q, y) && Handles(q + ([y] + s), b, given) else AllSmaller(q, y) && Handles(s, b, given)
  {
    var a := q + ([y] + s);
    hide Less, SetDiff;
    OnceParts(q, y, s);
    hide Once;
    if AllSmaller(q, y) {
      SkipSmaller(q, y, s, b);
      NeverBlocked(q, y);
      hide AllSmaller, Blocked;
      assert a == q + ([y] + s);
      if y in SetDiff(s, b) { SetDiffInside(s, b, y); }
      forall x | x in SetDiff(s, b) ensures x in s { SetDiffInside(s, b, x); }
      assert y in a && y !in SetDiff(a, [y] + b);
      if y !in given { Reduced(q, y, s, b, given); }
    } else {
      assert Blocked(q, y) by {
        var x :| x in q && !Less(x, y);
        LessTotal(x, y);
      }
      DropBlocked(q, [y] + s, y, b);
      hide AllSmaller, Blocked;
      assert y in a;
      if y !in b { Untouched(a, b, y); }
    }
  }

  lemma {:induction false} OnceParts(q: seq<string>, y: string, s: seq<string>)
    requires Once(q + ([y] + s))
    ensures y !in q && y !in s && Once(s) && Apart(q, s)
  {
    var a := q + ([y] + s);
    assert a[|q|] == y;
    assert forall k :: 0 <= k < |q| ==> a[k] == q[k];
    assert forall k :: 0 <= k < |s| ==> a[|q| + 1 + k] == s[k];
  }

  lemma {:induction false} NeverBlocked(q: seq<string>, y: string)
    requires AllSmaller(q, y)
    ensures !Blocked(q, y)
  {
    hide Less;
    if x :| x in q && Less(y, x) { LessAsymmetric(x, y); }
  }

  lemma {:induction false} Reduced(q: seq<string>, y: string, s: seq<string>, b: seq<string>, given: seq<string>)
    requires y !in q && y !in s && Apart(q, s) && Apart(q, b) && y !in b && y !in given
    requires SetDiff(q + ([y] + s), [y] + b) == q + SetDiff(s, b) && forall x :: x in SetDiff(s, b) ==> x in s
    ensures Handles(q + ([y] + s), [y] + b, given) <==> Handles(s, b, given)
  {
    var a := q + ([y] + s);
    hide SetDiff;
    forall x ensures (x in SetDiff(a, [y] + b) <==> x in a && (x in [y] + b ==> x in given)) <==>
      (x in SetDiff(s, b) <==> x in s && (x in b ==> x in given))
    {}
  }

  /** What nothing is taken away from stays. */
  lemma {:induction false} RestAside(a: seq<string>, r: seq<string>, b: seq<string>, x: string)
    requires Apart(r, b)
    ensures x in SetDiff(a + r, b) <==> x in SetDiff(a, b) || x in r
    decreases |a| + |b|
  {
    hide Less, SetDiff;
    if a == [] {
      assert a + r == r;
      NothingToTakeFrom(b);
      if x in SetDiff(r, b) { SetDiffInside(r, b, x); }
      if x in r { Untouched(r, b, x); }
    } else if b == [] {
      NoneToTake(a + r);
      NoneToTake(a);
    } else {
      HeadOf(a, r);
      HeadOf(b, []);
      DiffHead(a, b);
      DiffHead(a + r, b);
      if Less(a[0], b[0]) {
        RestAside(a[1..], r, b, x);
      } else if Less(b[0], a[0]) {
        RestAside(a, r, b[1..], x);
      } else {
        RestAside(a[1..], r, b[1..], x);
      }
    }
  }

  lemma {:induction false} NothingToTakeFrom(b: seq<string>)
    ensures SetDiff([], b) == []
  {}
}
