/** NMDC chat escaping (NmdcHub::validateMessage).

    The source edits one string in place, pattern by pattern.  `ReplacePass` is one such pass,
    `ValidateMessage` runs five of them to escape and three to unescape.  `Escape` is an
    independent single-pass definition; the lemmas show that the passes compute it, that the
    reverse passes undo it, and that an escaped message is safe to put into an NMDC frame. */
module NmdcEscape {

  const AMP := "&amp;"
  const DOLLAR := "&#36;"
  const PIPE := "&#124;"

  // ---------------------------------------------------------------- searching

  predicate MatchAt(s: string, pat: string, i: int) {
    0 <= i <= |s| - |pat| && pat <= s[i..]
  }

  predicate NoMatch(s: string, pat: string, lo: int, hi: int) {
    forall j :: lo <= j < hi ==> !MatchAt(s, pat, j)
  }

  /** std::string::find: the first position at or after `from` where `pat` starts, or -1. */
  function Find(s: string, pat: string, from: nat): (r: int)
    ensures r == -1 || (from <= r && MatchAt(s, pat, r))
    ensures NoMatch(s, pat, from, if r == -1 then |s| else r)
    decreases |s| - from
  {
    if from >= |s| then -1
    else if MatchAt(s, pat, from) then from
    else Find(s, pat, from + 1)
  }

  // ---------------------------------------------------------------- one pass

  /** What a find/replace pass means: every match, left to right, has its first `cut`
      characters replaced by `rep`; the search goes on right behind the replacement. */
  function Subst(s: string, pat: string, cut: nat, rep: string): string
    requires 0 < cut <= |pat|
  {
    if s == "" then ""
    else if pat <= s then rep + Subst(s[cut..], pat, cut, rep)
    else [s[0]] + Subst(s[1..], pat, cut, rep)
  }

  /** The text a pass will end with when `tmp` is settled up to position `i`. */
  function Settle(tmp: string, i: nat, pat: string, cut: nat, rep: string): string
    requires 0 < cut <= |pat| && i <= |tmp|
  {
    tmp[..i] + Subst(tmp[i..], pat, cut, rep)
  }

  /** Moving over characters at which no match starts settles them as they are. */
  lemma {:induction false} SettleSkips(tmp: string, i: nat, j: nat, pat: string, cut: nat, rep: string)
    requires 0 < cut <= |pat| && i <= j <= |tmp|
    requires NoMatch(tmp, pat, i, j)
    ensures Settle(tmp, i, pat, cut, rep) == Settle(tmp, j, pat, cut, rep)
    decreases j - i
  {
    if i < j {
      assert !MatchAt(tmp, pat, i);
      assert tmp[i..][1..] == tmp[i + 1..] && tmp[i..][0] == tmp[i];
      assert tmp[..i + 1] == tmp[..i] + [tmp[i]];
      SettleSkips(tmp, i + 1, j, pat, cut, rep);
    }
  }

  /** The text with the match at position i replaced. */
  function Replaced(tmp: string, i: nat, cut: nat, rep: string): string
    requires i + cut <= |tmp|
  {
    tmp[..i] + rep + tmp[i + cut..]
  }

  lemma {:induction false} ReplacedSlices(tmp: string, i: nat, cut: nat, rep: string)
    requires i + cut <= |tmp|
    ensures var next := Replaced(tmp, i, cut, rep);
      |next| == |tmp| + |rep| - cut && next[..i + |rep|] == tmp[..i] + rep && next[i + |rep|..] == tmp[i + cut..]
  {}

  lemma {:induction false} ReplacedAt(tmp: string, i: nat, cut: nat, rep: string, k: nat)
    requires i + cut <= |tmp| && k < |rep|
    ensures |Replaced(tmp, i, cut, rep)| == |tmp| + |rep| - cut && Replaced(tmp, i, cut, rep)[i + k] == rep[k]
  {}

  lemma {:induction false} SettleMatch(tmp: string, i: nat, pat: string, cut: nat, rep: string)
    requires 0 < cut <= |pat| && MatchAt(tmp, pat, i)
    ensures i + cut <= |tmp| && Settle(tmp, i, pat, cut, rep) == tmp[..i] + rep + Subst(tmp[i + cut..], pat, cut, rep)
  {
    assert tmp[i..][cut..] == tmp[i + cut..];
  }

  lemma {:induction false} NoMatchThere(s: string, pat: string, j: nat)
    requires pat != "" && j < |s| && s[j] != pat[0]
    ensures !MatchAt(s, pat, j)
  {
    assert s[j..][0] == s[j];
  }

  lemma {:induction false} ReplacedSettles(tmp: string, i: nat, pat: string, cut: nat, rep: string)
    requires 0 < cut <= |pat| && MatchAt(tmp, pat, i)
    ensures i + cut <= |tmp|
    ensures var next := Replaced(tmp, i, cut, rep);
      |next| == |tmp| + |rep| - cut && Settle(tmp, i, pat, cut, rep) == Settle(next, i + |rep|, pat, cut, rep)
  {
    SettleMatch(tmp, i, pat, cut, rep);
    ReplacedSlices(tmp, i, cut, rep);
    hide Subst, MatchAt, Replaced;
  }

  lemma {:induction false} OneNoMatch(s: string, pat: string, j: nat)
    requires !MatchAt(s, pat, j)
    ensures NoMatch(s, pat, j, j + 1)
  {
    hide MatchAt;
  }

  lemma {:induction false} SettleLast(s: string, j: nat, pat: string, cut: nat, rep: string)
    requires 0 < cut <= |pat| && j < |s| && s[j] != pat[0]
    ensures NoMatch(s, pat, j, j + 1) && Settle(s, j, pat, cut, rep) == Settle(s, j + 1, pat, cut, rep)
  {
    NoMatchThere(s, pat, j);
    OneNoMatch(s, pat, j);
    SettleSkips(s, j, j + 1, pat, cut, rep);
  }

  /** Replacing a match settles the replacement.  The search may go on at its last character,
      when no match can start there. */
  lemma {:induction false} SettleReplaces(tmp: string, i: nat, pat: string, cut: nat, rep: string, adv: nat)
    requires 0 < cut <= |pat| && MatchAt(tmp, pat, i)
    requires rep != "" && (adv == |rep| || (0 < adv == |rep| - 1 && rep[adv] != pat[0]))
    ensures i + cut <= |tmp|
    ensures var next := Replaced(tmp, i, cut, rep);
      && |next| == |tmp| + |rep| - cut && NoMatch(next, pat, i + adv, i + |rep|)
      && Settle(tmp, i, pat, cut, rep) == Settle(next, i + adv, pat, cut, rep)
  {
    hide Settle, Subst, MatchAt, Replaced, NoMatch;
    ReplacedSettles(tmp, i, pat, cut, rep);
    var next := Replaced(tmp, i, cut, rep);
    if adv < |rep| {
      ReplacedAt(tmp, i, cut, rep, adv);
      SettleLast(next, i + adv, pat, cut, rep);
    } else {
      NoneBetween(next, pat, i + adv);
    }
  }

  lemma {:induction false} NoneBetween(s: string, pat: string, j: nat)
    ensures NoMatch(s, pat, j, j)
  {}

  /** A search settles everything up to its match, or the whole text if there is none. */
  lemma {:induction false} SettleFinds(tmp: string, from: nat, r: int, pat: string, cut: nat, rep: string)
    requires 0 < cut <= |pat| && from <= |tmp| && r == Find(tmp, pat, from)
    ensures r == -1 ==> tmp == Settle(tmp, from, pat, cut, rep)
    ensures r != -1 ==> 0 <= r <= |tmp| && Settle(tmp, r, pat, cut, rep) == Settle(tmp, from, pat, cut, rep)
  {
    SettleSkips(tmp, from, if r == -1 then |tmp| else r, pat, cut, rep);
  }

  /** A search that goes on where no match starts before `to` finds nothing before `to`. */
  lemma {:induction false} FoundBehind(
    s: string, from: nat, to: nat, r: int, pat: string, cut: nat, rep: string
  )
    requires 0 < cut <= |pat| && from <= to <= |s| && NoMatch(s, pat, from, to) && r == Find(s, pat, from)
    ensures r == -1 ==> s == Settle(s, from, pat, cut, rep)
    ensures r != -1 ==>
      to <= r <= |s| && MatchAt(s, pat, r) && Settle(s, r, pat, cut, rep) == Settle(s, from, pat, cut, rep)
  {
    hide Settle, Find, MatchAt;
    SettleFinds(s, from, r, pat, cut, rep);
    assert r != -1 ==> MatchAt(s, pat, r);
  }

  /** One round of the loop: what is left to settle does not change, and the text behind the
      match position gets shorter although the text as a whole may grow. */
  lemma {:induction false} PassRound(
    tmp: string, i: nat, pat: string, cut: nat, rep: string, adv: nat, next: string, r: int
  )
    requires 0 < cut <= |pat| && MatchAt(tmp, pat, i)
    requires rep != "" && (adv == |rep| || (0 < adv == |rep| - 1 && rep[adv] != pat[0]))
    requires i + cut <= |tmp| && next == Replaced(tmp, i, cut, rep) && r == Find(next, pat, i + adv)
    ensures r == -1 ==> next == Settle(tmp, i, pat, cut, rep)
    ensures r != -1 ==>
      && MatchAt(next, pat, r) && 0 <= r <= |next| && |next| - r < |tmp| - i
      && Settle(next, r, pat, cut, rep) == Settle(tmp, i, pat, cut, rep)
  {
    hide Settle, Subst, Replaced, NoMatch, MatchAt, Find;
    SettleReplaces(tmp, i, pat, cut, rep, adv);
    FoundBehind(next, i + adv, i + |rep|, r, pat, cut, rep);
  }

  /** One find/replace loop over the growing (or shrinking) string `tmp`.  `adv` is how far the
      search position moves past a match: to the end of the replacement, or to its last character
      when no match can start there. */
  method ReplacePass(s: string, pat: string, cut: nat, rep: string, adv: nat) returns (tmp: string)
    requires 0 < cut <= |pat| && rep != ""
    requires adv == |rep| || (0 < adv == |rep| - 1 && rep[adv] != pat[0])
    ensures tmp == Subst(s, pat, cut, rep)
  {
    ghost var goal := Subst(s, pat, cut, rep);
    tmp := s;
    var i := Find(tmp, pat, 0);
    SettleFinds(tmp, 0, i, pat, cut, rep);
    assert s[0..] == s && s[..0] == "";
    hide Subst;
    while i != -1
      invariant i == -1 ==> tmp == goal
      invariant i != -1 ==> MatchAt(tmp, pat, i) && Settle(tmp, i, pat, cut, rep) == goal
      decreases if i == -1 then -1 else |tmp| - i
    {
      ghost var before, at := tmp, i;
      tmp := tmp[..i] + rep + tmp[i + cut..];
      i := Find(tmp, pat, i + adv);
      PassRound(before, at, pat, cut, rep, adv, tmp, i);
    }
  }

  // ---------------------------------------------------------------- all passes

  /** validateMessage: five passes to escape, three to unescape. */
  method ValidateMessage(msg: string, reverse: bool) returns (tmp: string)
    ensures tmp == if reverse then UnescapePasses(msg) else Escape(msg)
  {
    tmp := msg;
    if reverse {
      tmp := ReplacePass(tmp, DOLLAR, 5, "$", 1);
      tmp := ReplacePass(tmp, PIPE, 6, "|", 1);
      tmp := ReplacePass(tmp, AMP, 5, "&", 1);
    } else {
      tmp := ReplacePass(tmp, AMP, 1, AMP, 4);
      tmp := ReplacePass(tmp, DOLLAR, 1, AMP, 4);
      tmp := ReplacePass(tmp, PIPE, 1, AMP, 4);
      tmp := ReplacePass(tmp, "$", 1, DOLLAR, 4);
      tmp := ReplacePass(tmp, "|", 1, PIPE, 5);
      PassesComputeEscape(msg);
    }
  }

  function EscapePasses(s: string): string {
    var a := Subst(Subst(Subst(s, AMP, 1, AMP), DOLLAR, 1, AMP), PIPE, 1, AMP);
    Subst(Subst(a, "$", 1, DOLLAR), "|", 1, PIPE)
  }

  function UnescapePasses(s: string): string {
    Subst(Subst(Subst(s, DOLLAR, 5, "$"), PIPE, 6, "|"), AMP, 5, "&")
  }

  /** The intended escape: one left-to-right scan.  An ampersand is spelled out only where it
      would otherwise read as one of the three escape sequences. */
  function Escape(s: string): string {
    Enc(s, ALL)
  }

  /** Which rewritings a partially escaped text has already seen. */
  datatype Rules = Rules(amp: bool, dollarSeq: bool, pipeSeq: bool, dollar: bool, pipe: bool)

  const ALL := Rules(true, true, true, true, true)

  predicate Ambiguous(s: string, f: Rules) {
    (f.amp && AMP <= s) || (f.dollarSeq && DOLLAR <= s) || (f.pipeSeq && PIPE <= s)
  }

  /** The single scan restricted to the rules in `f`. */
  function Enc(s: string, f: Rules): string {
    if s == "" then ""
    else (if Ambiguous(s, f) then AMP
          else if f.dollar && s[0] == '$' then DOLLAR
          else if f.pipe && s[0] == '|' then PIPE
          else [s[0]]) + Enc(s[1..], f)
  }

  /** A word without special characters is in the encoded text exactly where it is in the text. */
  lemma {:induction false} PlainWord(w: string, t: string, f: Rules)
    requires '&' !in w && '$' !in w && '|' !in w
    ensures w <= Enc(t, f) <==> w <= t
  {
    if w != "" && t != "" {
      PlainWord(w[1..], t[1..], f);
      var e := Enc(t, f);
      assert e[0] == w[0] ==> e == [t[0]] + Enc(t[1..], f) && e[1..] == Enc(t[1..], f);
      assert w <= t <==> w[0] == t[0] && w[1..] <= t[1..];
      assert w <= e <==> w[0] == e[0] && w[1..] <= e[1..];
    }
  }

  /** An escape sequence shows up at the head of the encoded text only where it stood in the
      text already, or where the scan wrote it. */
  lemma {:induction false} SequenceAtHead(pat: string, t: string, f: Rules)
    requires pat in {AMP, DOLLAR, PIPE} && t != ""
    ensures pat <= Enc(t, f) <==>
      if Ambiguous(t, f) then pat == AMP
      else if f.dollar && t[0] == '$' then pat == DOLLAR
      else if f.pipe && t[0] == '|' then pat == PIPE
      else pat <= t
  {
    var e := Enc(t, f);
    if Ambiguous(t, f) {
      assert e[1] == 'a' && e[..5] == AMP;
      assert pat <= e ==> pat[1] == e[1];
    } else if f.dollar && t[0] == '$' {
      assert e[1] == '#' && e[2] == '3' && e[..5] == DOLLAR;
      assert pat <= e ==> pat[1] == e[1] && pat[2] == e[2];
    } else if f.pipe && t[0] == '|' {
      assert e[1] == '#' && e[2] == '1' && e[..6] == PIPE;
      assert pat <= e ==> pat[1] == e[1] && pat[2] == e[2];
    } else {
      PlainWord(pat[1..], t[1..], f);
      assert e[1..] == Enc(t[1..], f);
      assert pat <= t <==> pat[0] == t[0] && pat[1..] <= t[1..];
      assert pat <= e <==> pat[0] == e[0] && pat[1..] <= e[1..];
    }
  }

  /** Copying the n characters of `w` in front of `rest`. */
  lemma {:induction false} SubstCopies(w: string, rest: string, pat: string, cut: nat, rep: string)
    requires 0 < cut <= |pat|
    requires forall j :: 0 <= j < |w| ==> w[j] != pat[0] || (j == 0 && !(pat <= w + rest))
    ensures Subst(w + rest, pat, cut, rep) == w + Subst(rest, pat, cut, rep)
  {
    var s := w + rest;
    assert s[0..] == s && s[..0] == "";
    forall k | 0 <= k < |w| ensures !MatchAt(s, pat, k) {
      assert k <= |s| - |pat| ==> s[k..][0] == w[k];
    }
    SettleSkips(s, 0, |w|, pat, cut, rep);
    assert s[..|w|] == w && s[|w|..] == rest;
  }

  /** An ampersand pass adds its rule to the scan. */
  lemma {:induction false} AmpersandPass(s: string, pat: string, f: Rules, g: Rules)
    requires !f.dollar && !f.pipe
    requires || (pat == AMP && f == Rules(false, false, false, false, false) && g == f.(amp := true))
             || (pat == DOLLAR && f == Rules(true, false, false, false, false) && g == f.(dollarSeq := true))
             || (pat == PIPE && f == Rules(true, true, false, false, false) && g == f.(pipeSeq := true))
    ensures Subst(Enc(s, f), pat, 1, AMP) == Enc(s, g)
  {
    if s != "" {
      AmpersandPass(s[1..], pat, f, g);
      SequenceAtHead(pat, s, f);
      AmpersandsOnly(s, f);
      AmpersandsOnly(s, g);
      hide Subst, Enc;
      if Ambiguous(s, f) {
        SubstCopies(AMP, Enc(s[1..], f), pat, 1, AMP);
      } else {
        SubstHead(s[0], Enc(s[1..], f), pat, AMP);
      }
    }
  }

  lemma {:induction false} AmpersandsOnly(s: string, f: Rules)
    requires !f.dollar && !f.pipe && s != ""
    ensures Enc(s, f) == (if Ambiguous(s, f) then AMP else [s[0]]) + Enc(s[1..], f)
  {
    hide Ambiguous;
  }

  lemma {:induction false} SubstHead(x: char, rest: string, pat: string, rep: string)
    requires pat != ""
    ensures Subst([x] + rest, pat, 1, rep) == (if pat <= [x] + rest then rep else [x]) + Subst(rest, pat, 1, rep)
  {
    assert ([x] + rest)[1..] == rest;
  }

  /** The two last passes write the sequences for `$` and `|`. */
  lemma {:induction false} DelimiterPass(s: string, c: char, rep: string, f: Rules, g: Rules)
    requires || (c == '$' && rep == DOLLAR && f == ALL.(dollar := false, pipe := false) && g == f.(dollar := true))
             || (c == '|' && rep == PIPE && f == ALL.(pipe := false) && g == ALL)
    ensures Subst(Enc(s, f), [c], 1, rep) == Enc(s, g)
  {
    if s != "" {
      DelimiterPass(s[1..], c, rep, f, g);
      var rest := Enc(s[1..], f);
      if Ambiguous(s, f) {
        SubstCopies(AMP, rest, [c], 1, rep);
      } else if f.dollar && s[0] == '$' {
        SubstCopies(DOLLAR, rest, [c], 1, rep);
      } else {
        SubstOneChar(s[0], rest, c, rep);
      }
    }
  }

  lemma {:induction false} SubstOneChar(x: char, rest: string, c: char, rep: string)
    ensures Subst([x] + rest, [c], 1, rep) == (if x == c then rep else [x]) + Subst(rest, [c], 1, rep)
  {
    var s := [x] + rest;
    assert s[1..] == rest;
    assert [c] <= s <==> c == s[0];
  }

  lemma {:induction false} NoRules(s: string)
    ensures Enc(s, Rules(false, false, false, false, false)) == s
  {
    if s != "" { NoRules(s[1..]); }
  }

  /** The five in-place passes compute the single scan, for every message. */
  lemma {:induction false} PassesComputeEscape(s: string)
    ensures EscapePasses(s) == Escape(s)
  {
    var none := Rules(false, false, false, false, false);
    NoRules(s);
    AmpersandPass(s, AMP, none, none.(amp := true));
    AmpersandPass(s, DOLLAR, none.(amp := true), none.(amp := true, dollarSeq := true));
    AmpersandPass(s, PIPE, none.(amp := true, dollarSeq := true), ALL.(dollar := false, pipe := false));
    DelimiterPass(s, '$', DOLLAR, ALL.(dollar := false, pipe := false), ALL.(pipe := false));
    DelimiterPass(s, '|', PIPE, ALL.(pipe := false), ALL);
  }

  // ---------------------------------------------------------------- the way back

  /** A reverse delimiter pass takes its rule away again. */
  lemma {:induction false} UndoDelimiter(s: string, pat: string, c: char, f: Rules, g: Rules)
    requires || (pat == DOLLAR && c == '$' && f == ALL && g == ALL.(dollar := false))
             || (pat == PIPE && c == '|' && f == ALL.(dollar := false) && g == ALL.(dollar := false, pipe := false))
    ensures Subst(Enc(s, f), pat, |pat|, [c]) == Enc(s, g)
  {
    if s != "" {
      UndoDelimiter(s[1..], pat, c, f, g);
      SequenceAtHead(pat, s, f);
      var e, rest := Enc(s, f), Enc(s[1..], f);
      if Ambiguous(s, f) {
        assert e == AMP + rest;
        hide Subst;
        SubstCopies(AMP, rest, pat, |pat|, [c]);
      } else if s[0] == c {
        assert e == pat + rest;
        hide Subst;
        SubstFirst(pat, rest, [c]);
      } else if f.pipe && s[0] == '|' {
        assert e == PIPE + rest;
        hide Subst;
        SubstCopies(PIPE, rest, pat, |pat|, [c]);
      } else {
        assert e == [s[0]] + rest;
        hide Subst;
        SubstKeeps(s[0], rest, pat, |pat|, [c]);
      }
    }
  }

  lemma {:induction false} SubstFirst(pat: string, rest: string, rep: string)
    requires pat != ""
    ensures Subst(pat + rest, pat, |pat|, rep) == rep + Subst(rest, pat, |pat|, rep)
  {
    assert (pat + rest)[|pat|..] == rest;
  }

  lemma {:induction false} SubstKeeps(x: char, rest: string, pat: string, cut: nat, rep: string)
    requires 0 < cut <= |pat| && !(pat <= [x] + rest)
    ensures Subst([x] + rest, pat, cut, rep) == [x] + Subst(rest, pat, cut, rep)
  {
    assert ([x] + rest)[1..] == rest;
  }

  lemma {:induction false} UndoAmpersands(s: string)
    ensures Subst(Enc(s, ALL.(dollar := false, pipe := false)), AMP, 5, "&") == s
  {
    if s != "" {
      var f := ALL.(dollar := false, pipe := false);
      UndoAmpersands(s[1..]);
      SequenceAtHead(AMP, s, f);
      var e, rest := Enc(s, f), Enc(s[1..], f);
      if Ambiguous(s, f) {
        assert e == AMP + rest && e[5..] == rest;
      } else {
        assert e == [s[0]] + rest && e[1..] == rest;
      }
    }
  }

  /** Unescaping an escaped message gives the message back, for every message. */
  lemma {:induction false} UnescapeInvertsEscape(s: string)
    ensures UnescapePasses(Escape(s)) == s
  {
    UndoDelimiter(s, DOLLAR, '$', ALL, ALL.(dollar := false));
    UndoDelimiter(s, PIPE, '|', ALL.(dollar := false), ALL.(dollar := false, pipe := false));
    UndoAmpersands(s);
  }

  /** Hence no two messages share an escaped form. */
  lemma {:induction false} EscapeInjective(s: string, t: string)
    requires Escape(s) == Escape(t)
    ensures s == t
  {
    UnescapeInvertsEscape(s);
    UnescapeInvertsEscape(t);
  }

  /** An escaped message cannot end or split an NMDC command, and grows at most sixfold. */
  lemma {:induction false} EscapedIsFrameSafe(s: string)
    ensures '$' !in Escape(s) && '|' !in Escape(s)
    ensures |s| <= |Escape(s)| <= 6 * |s|
  {
    if s != "" { EscapedIsFrameSafe(s[1..]); }
  }

  /** What stands for the i-th character in the escaped message. */
  function Word(s: string, i: nat): string
    requires i < |s|
  {
    if s[i] == '$' then "&#36;"
    else if s[i] == '|' then "&#124;"
    else if "&amp;" <= s[i..] || "&#36;" <= s[i..] || "&#124;" <= s[i..] then "&amp;"
    else [s[i]]
  }

  function Words(s: string, i: nat): string
    requires i <= |s|
    decreases |s| - i
  {
    if i == |s| then "" else Word(s, i) + Words(s, i + 1)
  }

  /** Every dollar sign and every vertical bar becomes its own sequence, and an ampersand is spelled out
      exactly where the message has one of the three sequences; all else stays. */
  lemma {:induction false} EscapedByCharacter(s: string)
    ensures Escape(s) == Words(s, 0)
  {
    assert s[0..] == s;
    EscapedFrom(s, 0);
  }

  lemma {:induction false} EscapedFrom(s: string, i: nat)
    requires i <= |s|
    ensures Escape(s[i..]) == Words(s, i)
    decreases |s| - i
  {
    if i < |s| {
      EscapedFrom(s, i + 1);
      assert s[i..][0] == s[i] && s[i..][1..] == s[i + 1..];
    }
  }
}
