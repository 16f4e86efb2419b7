/** Directory names: comparison without regard to case, and the " (n)" suffix that makes a name
    unique among siblings (filelist/DirectoryListingDirectory.cpp, VirtualDirectory::create). */
module Names {

  function Lower(c: char): char {
    if 'A' <= c <= 'Z' then c - 'A' + 'a' else c
  }

  function Fold(s: string): string {
    seq(|s|, i requires 0 <= i < |s| => Lower(s[i]))
  }

  predicate Same(a: string, b: string) { Fold(a) == Fold(b) }

  /** The same but for the case of letters. */
  lemma {:induction false} SameExactly(a: string, b: string)
    ensures Same(a, b) <==> |a| == |b| && forall i :: 0 <= i < |a| ==> SameLetter(a[i], b[i])
  {
    var f, g := Fold(a), Fold(b);
    if f == g {
      assert |a| == |f| && |b| == |g|;
      forall i | 0 <= i < |a| ensures Lower(a[i]) == Lower(b[i]) { assert f[i] == g[i]; }
    }
    if |a| == |b| && forall i :: 0 <= i < |a| ==> Lower(a[i]) == Lower(b[i]) { assert f == g; }
    forall i | |a| == |b| && 0 <= i < |a| ensures Lower(a[i]) == Lower(b[i]) <==> SameLetter(a[i], b[i]) {}
  }

  predicate SameLetter(a: char, b: char) {
    a == b || ('A' <= a <= 'Z' && b as int == a as int + 32) || ('A' <= b <= 'Z' && a as int == b as int + 32)
  }

  function Digit(n: nat): char
    requires n < 10
  {
    '0' + n as char
  }

  function Decimal(n: nat): (s: string)
    ensures s != [] && forall i :: 0 <= i < |s| ==> '0' <= s[i] <= '9'
  {
    if n < 10 then [Digit(n)] else Decimal(n / 10) + [Digit(n % 10)]
  }

  lemma {:induction false} DecimalInjective(m: nat, n: nat)
    requires Decimal(m) == Decimal(n)
    ensures m == n
    decreases m
  {
    var s, t := Decimal(m), Decimal(n);
    assert s[|s| - 1] == Digit(m % 10) && t[|t| - 1] == Digit(n % 10);
    if m >= 10 && n >= 10 {
      assert s[..|s| - 1] == Decimal(m / 10) && t[..|t| - 1] == Decimal(n / 10);
      DecimalInjective(m / 10, n / 10);
    }
  }

  /** The number that decimal digits stand for. */
  function Number(s: string): int {
    if s == "" then 0 else 10 * Number(s[..|s| - 1]) + (s[|s| - 1] as int - '0' as int)
  }

  /** The digits of a number, without a zero in front. */
  lemma {:induction false} DecimalSpells(n: nat)
    ensures Number(Decimal(n)) == n && (|Decimal(n)| > 1 ==> Decimal(n)[0] != '0')
  {
    var s := Decimal(n);
    if n < 10 {
      assert s[..0] == "";
    } else {
      DecimalSpells(n / 10);
      assert s[..|s| - 1] == Decimal(n / 10) && s[0] == Decimal(n / 10)[0];
      if |Decimal(n / 10)| == 1 { assert n / 10 < 10; }
    }
  }

  function Numbered(name: string, n: nat): string {
    name + " (" + Decimal(n) + ")"
  }

  /** The last opening parenthesis before the digits splits a string in one way only. */
  lemma {:induction false} DigitTail(x: string, u: string, y: string, v: string)
    requires x + "(" + u == y + "(" + v
    requires forall i :: 0 <= i < |u| ==> u[i] != '('
    requires forall i :: 0 <= i < |v| ==> v[i] != '('
    ensures x == y && u == v
    decreases |u|
  {
    var s, t := x + "(" + u, y + "(" + v;
    assert s[|s| - 1] == '(' <==> u == "";
    assert t[|t| - 1] == '(' <==> v == "";
    if u == "" {
      assert s[..|s| - 1] == x && t[..|t| - 1] == y;
    } else {
      var u', v' := u[..|u| - 1], v[..|v| - 1];
      assert s[..|s| - 1] == x + "(" + u' && t[..|t| - 1] == y + "(" + v';
      DigitTail(x, u', y, v');
      assert u[|u| - 1] == s[|s| - 1] && v[|v| - 1] == t[|t| - 1];
      assert u == u' + [u[|u| - 1]] && v == v' + [v[|v| - 1]];
    }
  }

  lemma {:induction false} FoldConcat(a: string, b: string)
    ensures Fold(a + b) == Fold(a) + Fold(b)
  {}

  /** Numbered names differ, in any case, when the number or the name does. */
  lemma {:induction false} NumberedInjective(a: string, m: nat, b: string, n: nat)
    requires Same(Numbered(a, m), Numbered(b, n))
    ensures m == n && Same(a, b)
  {
    var u, v := Decimal(m), Decimal(n);
    FoldNumbered(a, m);
    FoldNumbered(b, n);
    var s, t := Fold(a) + " (" + u + ")", Fold(b) + " (" + v + ")";
    assert s[..|s| - 1] == (Fold(a) + " ") + "(" + u && t[..|t| - 1] == (Fold(b) + " ") + "(" + v;
    DigitTail(Fold(a) + " ", u, Fold(b) + " ", v);
    assert (Fold(a) + " ")[..|a|] == Fold(a) && (Fold(b) + " ")[..|b|] == Fold(b);
    DecimalInjective(m, n);
  }

  lemma {:induction false} FoldNumbered(a: string, n: nat)
    ensures Fold(Numbered(a, n)) == Fold(a) + " (" + Decimal(n) + ")"
  {
    var u := Decimal(n);
    assert Fold(u) == u;
    FoldConcat(a, " (");
    FoldConcat(a + " (", u);
    FoldConcat(a + " (" + u, ")");
    assert Fold(" (") == " (" && Fold(")") == ")";
  }

  // ---------------------------------------------------------------- a free name

  /** One of the names is the same as this one. */
  predicate Taken(names: seq<string>, name: string) {
    exists i :: 0 <= i < |names| && Same(names[i], name)
  }

  /** Numbers up to and including n are all taken: then there are at least n names. */
  lemma {:induction false} TakenBound(names: seq<string>, name: string, n: nat)
    requires forall k :: 1 <= k <= n ==> Taken(names, Numbered(name, k))
    ensures n <= |names|
  {
    var owner := map k | k in Upto(n) :: Owner(names, Numbered(name, k)) + 1;
    forall j, k | j in Upto(n) && k in Upto(n) && owner[j] == owner[k] ensures j == k {
      NumberedInjective(name, j, name, k);
    }
    InjectionBound(Upto(n), Upto(|names|), owner);
  }

  function Upto(n: nat): (s: set<nat>)
    ensures |s| == n && forall k :: k in s <==> 1 <= k <= n
  {
    if n == 0 then {} else Upto(n - 1) + {n}
  }

  ghost function Owner(names: seq<string>, name: string): (i: nat)
    requires Taken(names, name)
    ensures i < |names| && Same(names[i], name)
  {
    var i :| 0 <= i < |names| && Same(names[i], name);
    i
  }

  lemma {:induction false} InjectionBound(from: set<nat>, to: set<nat>, f: map<nat, nat>)
    requires forall k :: k in from ==> k in f && f[k] in to
    requires forall j, k :: j in from && k in from && f[j] == f[k] ==> j == k
    ensures |from| <= |to|
    decreases from
  {
    if from != {} {
      var k :| k in from;
      InjectionBound(from - {k}, to - {f[k]}, f);
    }
  }

  /** The first of the names numbered n, n + 1, ... that is free. */
  function FirstFree(names: seq<string>, name: string, n: nat): (r: string)
    requires 1 <= n && forall k :: 1 <= k < n ==> Taken(names, Numbered(name, k))
    ensures !Taken(names, r) && exists k :: n <= k && r == Numbered(name, k)
    decreases |names| + 1 - n
  {
    TakenBound(names, name, n - 1);
    if Taken(names, Numbered(name, n)) then
      TakenBound(names, name, n);
      FirstFree(names, name, n + 1)
    else Numbered(name, n)
  }

  /** The name itself when it is free, else the first free numbered one. */
  function UniqueName(names: seq<string>, name: string): (r: string)
    ensures !Taken(names, r) && (Taken(names, name) ==> exists k :: 1 <= k && r == Numbered(name, k))
    ensures !Taken(names, name) ==> r == name
  {
    if Taken(names, name) then FirstFree(names, name, 1) else name
  }

  /** What a name gets among others: nothing if it is free, else a space and in parentheses the least number
      from one on with which it is. */
  lemma {:induction false} UniqueExactly(names: seq<string>, name: string) returns (n: nat, digits: string)
    ensures var r := UniqueName(names, name);
      if !Taken(names, name) then r == name
      else
        && n >= 1 && r == name + " (" + digits + ")" && !Taken(names, r)
        && Number(digits) == n && (|digits| > 1 ==> digits[0] != '0')
        && (forall i :: 0 <= i < |digits| ==> '0' <= digits[i] <= '9')
        && forall k :: 1 <= k < n ==> Taken(names, Numbered(name, k))
  {
    n, digits := 1, Decimal(1);
    if Taken(names, name) {
      n := LeastFree(names, name, 1);
      digits := Decimal(n);
      DecimalSpells(n);
    }
  }

  lemma {:induction false} LeastFree(names: seq<string>, name: string, from: nat) returns (n: nat)
    requires 1 <= from && forall k :: 1 <= k < from ==> Taken(names, Numbered(name, k))
    ensures n >= from && FirstFree(names, name, from) == Numbered(name, n) && !Taken(names, Numbered(name, n))
    ensures forall k :: 1 <= k < n ==> Taken(names, Numbered(name, k))
    decreases |names| + 1 - from
  {
    hide Numbered, Taken;
    TakenBound(names, name, from - 1);
    if Taken(names, Numbered(name, from)) {
      TakenBound(names, name, from);
      n := LeastFree(names, name, from + 1);
    } else {
      n := from;
    }
  }

  method Contains(names: seq<string>, name: string) returns (found: bool)
    ensures found == Taken(names, name)
  {
    found := false;
    for i := 0 to |names|
      invariant !found && !Taken(names[..i], name)
    {
      if Same(names[i], name) { return true; }
    }
    assert names[..|names|] == names;
  }

  /** The name loop of VirtualDirectory::create.  It ends, as only so many names can be taken. */
  method FindName(names: seq<string>, name: string) returns (r: string)
    ensures r == UniqueName(names, name)
  {
    hide Taken, Numbered;
    r := name;
    var taken := Contains(names, r);
    if taken {
      var num := 0;
      while true
        invariant forall k :: 1 <= k <= num ==> Taken(names, Numbered(name, k))
        invariant UniqueName(names, name) == FirstFree(names, name, num + 1)
        decreases |names| + 1 - num
      {
        num := num + 1;
        r := Numbered(name, num);
        taken := Contains(names, r);
        if !taken { break; }
        TakenBound(names, name, num);
      }
    }
  }
}
