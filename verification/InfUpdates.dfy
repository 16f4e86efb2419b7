/** The INF command of ADC (hub/AdcHub.cpp, addParam and infoImpl): only fields that changed since the
    last one are sent, and the receiver (user/User.cpp, Identity::set) keeps what it was told before. */
module InfUpdates {

  /** Two letters and a value; the empty value takes a field away. */
  datatype Field = Field(name: string, value: string)

  type Fields = map<string, string>

  function Lookup(m: Fields, name: string): string {
    if name in m then m[name] else ""
  }

  /** What a field does to the receiver's map. */
  function Apply(m: Fields, f: Field): Fields {
    if f.value == "" then m - {f.name} else m[f.name := f.value]
  }

  function ApplyAll(m: Fields, fs: seq<Field>): Fields {
    if fs == [] then m else Apply(ApplyAll(m, fs[..|fs| - 1]), fs[|fs| - 1])
  }

  /** What addParam adds to the command. */
  function Changed(m: Fields, f: Field): seq<Field> {
    if Lookup(m, f.name) != f.value then [f] else []
  }

  function Command(m: Fields, fs: seq<Field>): seq<Field> {
    if fs == [] then [] else Command(m, fs[..|fs| - 1]) + Changed(ApplyAll(m, fs[..|fs| - 1]), fs[|fs| - 1])
  }

  class AdcHub {
    var lastInfoMap: Fields
    var sent: seq<seq<Field>>

    constructor ()
      ensures lastInfoMap == map[] && sent == []
    {
      lastInfoMap, sent := map[], [];
    }

    /** A new connection: nothing was said yet. */
    method OnConnected()
      modifies this`lastInfoMap
      ensures lastInfoMap == map[]
    {
      lastInfoMap := map[];
    }

    method AddParam(c: seq<Field>, name: string, value: string) returns (r: seq<Field>)
      requires NonEmpty(lastInfoMap)
      modifies this`lastInfoMap
      ensures lastInfoMap == Apply(old(lastInfoMap), Field(name, value))
      ensures r == c + Changed(old(lastInfoMap), Field(name, value))
      ensures NonEmpty(lastInfoMap)
    {
      r := c;
      if name in lastInfoMap {
        if lastInfoMap[name] != value {
          if value == "" {
            lastInfoMap := lastInfoMap - {name};
          } else {
            lastInfoMap := lastInfoMap[name := value];
          }
          r := c + [Field(name, value)];
        }
      } else if value != "" {
        lastInfoMap := lastInfoMap[name := value];
        r := c + [Field(name, value)];
      }
    }

    /** fs: the fields in the order of the source with their current values.  allowed: no hook stops
        the command. */
    method InfoImpl(fs: seq<Field>, allowed: bool)
      requires NonEmpty(lastInfoMap)
      modifies this
      ensures lastInfoMap == ApplyAll(old(lastInfoMap), fs)
      ensures sent == old(sent) +
        if Command(old(lastInfoMap), fs) != [] && allowed then [Command(old(lastInfoMap), fs)] else []
      ensures NonEmpty(lastInfoMap)
    {
      var c: seq<Field> := [];
      for i := 0 to |fs|
        invariant sent == old(sent) && lastInfoMap == ApplyAll(old(lastInfoMap), fs[..i])
        invariant c == Command(old(lastInfoMap), fs[..i])
        invariant NonEmpty(lastInfoMap)
      {
        assert fs[..i + 1][..i] == fs[..i];
        c := AddParam(c, fs[i].name, fs[i].value);
      }
      assert fs[..|fs|] == fs;
      if |c| > 0 && allowed {
        sent := sent + [c];
      }
    }
  }

  // ---------------------------------------------------------------- what the receiver knows

  lemma {:induction false} ApplyConcat(m: Fields, a: seq<Field>, b: seq<Field>)
    ensures ApplyAll(m, a + b) == ApplyAll(ApplyAll(m, a), b)
    decreases |b|
  {
    if b == [] {
      assert a + b == a;
    } else {
      assert (a + b)[..|a + b| - 1] == a + b[..|b| - 1];
      ApplyConcat(m, a, b[..|b| - 1]);
    }
  }

  /** No field is recorded as empty. */
  ghost predicate NonEmpty(m: Fields) {
    forall x :: x in m ==> m[x] != ""
  }

  lemma {:induction false} ApplyKeeps(m: Fields, f: Field)
    requires NonEmpty(m)
    ensures NonEmpty(Apply(m, f))
  {}

  /** The changed fields do to a receiver that is up to date what all fields would do. */
  lemma {:induction false} CommandSuffices(m: Fields, fs: seq<Field>)
    requires NonEmpty(m)
    ensures ApplyAll(m, Command(m, fs)) == ApplyAll(m, fs) && NonEmpty(ApplyAll(m, fs))
  {
    hide Apply, Changed, NonEmpty;
    if fs != [] {
      var front, f := fs[..|fs| - 1], fs[|fs| - 1];
      CommandSuffices(m, front);
      ApplyConcat(m, Command(m, front), Changed(ApplyAll(m, front), f));
      ApplyOne(ApplyAll(m, front), f);
      ApplyKeeps(ApplyAll(m, front), f);
    }
  }

  lemma {:induction false} ApplyOne(m: Fields, f: Field)
    requires NonEmpty(m)
    ensures ApplyAll(m, Changed(m, f)) == Apply(m, f)
  {
    var none: seq<Field> := [];
    assert [f][..0] == none && ApplyAll(m, none) == m && ApplyAll(m, [f]) == Apply(m, f);
  }

  ghost predicate DistinctNames(fs: seq<Field>) {
    forall i, j :: 0 <= i < j < |fs| ==> fs[i].name != fs[j].name
  }

  lemma {:induction false} Untouched(m: Fields, fs: seq<Field>, name: string)
    requires forall i :: 0 <= i < |fs| ==> fs[i].name != name
    ensures Lookup(ApplyAll(m, fs), name) == Lookup(m, name)
  {
    if fs != [] { Untouched(m, fs[..|fs| - 1], name); }
  }

  /** The command has exactly the fields whose value is not what the receiver knows. */
  lemma {:induction false} CommandExactly(m: Fields, fs: seq<Field>, f: Field)
    requires DistinctNames(fs)
    ensures f in Command(m, fs) <==> f in fs && Lookup(m, f.name) != f.value
  {
    if fs != [] {
      var front, last := fs[..|fs| - 1], fs[|fs| - 1];
      CommandExactly(m, front, f);
      Untouched(m, front, last.name);
      assert fs == front + [last];
    }
  }

  /** Afterwards the receiver knows each field as it is. */
  lemma {:induction false} FieldsKnown(m: Fields, fs: seq<Field>, f: Field)
    requires DistinctNames(fs) && f in fs
    ensures Lookup(ApplyAll(m, fs), f.name) == f.value
  {
    var front, last := fs[..|fs| - 1], fs[|fs| - 1];
    assert fs == front + [last];
    if f != last {
      assert f in front;
      var i :| 0 <= i < |front| && front[i] == f;
      assert fs[i].name != fs[|fs| - 1].name;
      FieldsKnown(m, front, f);
    }
  }

  // ---------------------------------------------------------------- whole sessions

  /** One INF: the fields with their values at that time, and whether the command gets out. */
  datatype Update = Update(fields: seq<Field>, allowed: bool)

  /** What was last sent, and what the receiver knows. */
  datatype Session = Session(last: Fields, known: Fields)

  function After(s: Session, u: Update): Session {
    Session(ApplyAll(s.last, u.fields), if u.allowed then ApplyAll(s.known, Command(s.last, u.fields)) else s.known)
  }

  function Exec(s: Session, us: seq<Update>): Session {
    if us == [] then s else After(Exec(s, us[..|us| - 1]), us[|us| - 1])
  }

  /** As long as every command gets out, the receiver knows exactly what the sender has recorded. */
  lemma {:induction false} SessionInStep(us: seq<Update>)
    requires forall i :: 0 <= i < |us| ==> us[i].allowed
    ensures var s := Exec(Session(map[], map[]), us); s.known == s.last && NonEmpty(s.last)
  {
    if us != [] {
      var front, u := us[..|us| - 1], us[|us| - 1];
      SessionInStep(front);
      CommandSuffices(Exec(Session(map[], map[]), front).last, u.fields);
      hide ApplyAll, Command;
    }
  }

  /** A command that is stopped leaves them in step exactly when each field had the value that was sent
      last: changes are recorded as sent all the same. */
  lemma {:induction false} StoppedExactly(s: Session, fs: seq<Field>)
    requires s.known == s.last && NonEmpty(s.last) && DistinctNames(fs)
    ensures var after := After(s, Update(fs, false));
      after.known == after.last <==> forall f :: f in fs ==> Lookup(s.last, f.name) == f.value
  {
    CommandSuffices(s.last, fs);
    if Command(s.last, fs) == [] {
      assert ApplyAll(s.last, []) == s.last;
      forall f | f in fs ensures Lookup(s.last, f.name) == f.value { CommandExactly(s.last, fs, f); }
    } else {
      var f := Command(s.last, fs)[0];
      assert f in Command(s.last, fs);
      CommandExactly(s.last, fs, f);
      FieldsKnown(s.last, fs, f);
    }
  }

  /** The value of a field, if the update has it. */
  predicate Gives(fs: seq<Field>, name: string) {
    exists i :: 0 <= i < |fs| && fs[i].name == name
  }

  function ValueIn(fs: seq<Field>, name: string): string
    requires Gives(fs, name)
  {
    if fs[|fs| - 1].name == name then fs[|fs| - 1].value
    else
      assert Gives(fs[..|fs| - 1], name) by {
        var i :| 0 <= i < |fs| && fs[i].name == name;
        assert fs[..|fs| - 1][i].name == name;
      }
      ValueIn(fs[..|fs| - 1], name)
  }

  /** The value a field has after the updates. */
  function Present(us: seq<Update>, name: string): string {
    if us == [] then ""
    else
      var before, u := Present(us[..|us| - 1], name), us[|us| - 1];
      if Gives(u.fields, name) then ValueIn(u.fields, name) else before
  }

  /** The value it had when a change of it last got out. */
  function Told(us: seq<Update>, name: string): string {
    if us == [] then ""
    else
      var front, u := us[..|us| - 1], us[|us| - 1];
      if u.allowed && Gives(u.fields, name) && ValueIn(u.fields, name) != Present(front, name)
      then ValueIn(u.fields, name)
      else Told(front, name)
  }

  predicate UpToDate(us: seq<Update>, name: string) { Told(us, name) == Present(us, name) }

  lemma {:induction false} Given(fs: seq<Field>, name: string)
    requires Gives(fs, name)
    ensures Field(name, ValueIn(fs, name)) in fs
  {
    if fs[|fs| - 1].name != name {
      var front := fs[..|fs| - 1];
      assert Gives(front, name) by {
        var i :| 0 <= i < |fs| && fs[i].name == name;
        assert front[i].name == name;
      }
      Given(front, name);
    } else {
      assert fs[|fs| - 1] == Field(name, ValueIn(fs, name));
    }
  }

  /** One update: what the two sides have for a name. */
  lemma {:induction false} UpdateExactly(s: Session, u: Update, name: string)
    requires NonEmpty(s.last) && DistinctNames(u.fields)
    ensures var after := After(s, u);
      && Lookup(after.last, name) == (if Gives(u.fields, name) then ValueIn(u.fields, name) else Lookup(s.last, name))
      && Lookup(after.known, name) ==
        if u.allowed && Gives(u.fields, name) && ValueIn(u.fields, name) != Lookup(s.last, name)
        then ValueIn(u.fields, name)
        else Lookup(s.known, name)
  {
    var fs, c := u.fields, Command(s.last, u.fields);
    CommandDistinct(s.last, fs);
    hide ApplyAll, Command, ValueIn, DistinctNames, Apply;
    forall f | f in c && f.name == name ensures Gives(fs, name) && f == Field(name, ValueIn(fs, name)) &&
      f.value != Lookup(s.last, name)
    {
      CommandExactly(s.last, fs, f);
      assert Gives(fs, name) by { var i :| 0 <= i < |fs| && fs[i] == f; }
      Given(fs, name);
      OnlyOne(fs, f, Field(name, ValueIn(fs, name)));
    }
    if Gives(fs, name) {
      var f := Field(name, ValueIn(fs, name));
      Given(fs, name);
      FieldsKnown(s.last, fs, f);
      CommandExactly(s.last, fs, f);
      if f in c { FieldsKnown(s.known, c, f); }
    } else {
      Untouched(s.last, fs, name);
    }
    if forall i :: 0 <= i < |c| ==> c[i].name != name { Untouched(s.known, c, name); }
  }

  lemma {:induction false} OnlyOne(fs: seq<Field>, f: Field, g: Field)
    requires DistinctNames(fs) && f in fs && g in fs && f.name == g.name
    ensures f == g
  {}

  lemma {:induction false} CommandDistinct(m: Fields, fs: seq<Field>)
    requires DistinctNames(fs)
    ensures DistinctNames(Command(m, fs))
  {
    if fs != [] {
      var front, last := fs[..|fs| - 1], fs[|fs| - 1];
      CommandDistinct(m, front);
      forall f | f in Command(m, front) ensures f.name != last.name {
        CommandExactly(m, front, f);
        var i :| 0 <= i < |front| && front[i] == f;
        assert fs[i].name != fs[|fs| - 1].name;
      }
    }
  }

  /** In every session, commands stopped or not: the sender has recorded the present value of each
      field, and the receiver knows the one it had when a change of it last got out. */
  lemma {:induction false} SessionExactly(us: seq<Update>, name: string)
    requires forall i :: 0 <= i < |us| ==> DistinctNames(us[i].fields)
    ensures var s := Exec(Session(map[], map[]), us);
      && NonEmpty(s.last) && NonEmpty(s.known)
      && Lookup(s.last, name) == Present(us, name) && Lookup(s.known, name) == Told(us, name)
  {
    if us != [] {
      var front, u := us[..|us| - 1], us[|us| - 1];
      var s := Exec(Session(map[], map[]), front);
      SessionExactly(front, name);
      CommandSuffices(s.last, u.fields);
      AppliedNonEmpty(s.known, Command(s.last, u.fields));
      UpdateExactly(s, u, name);
      hide ApplyAll, Command, Lookup, NonEmpty, ValueIn, Gives;
    }
  }

  lemma {:induction false} AppliedNonEmpty(m: Fields, fs: seq<Field>)
    requires NonEmpty(m)
    ensures NonEmpty(ApplyAll(m, fs))
  {
    if fs != [] { AppliedNonEmpty(m, fs[..|fs| - 1]); }
  }

  lemma {:induction false} RecordNonEmpty(us: seq<Update>)
    ensures NonEmpty(Exec(Session(map[], map[]), us).last)
  {
    if us != [] {
      var front := us[..|us| - 1];
      RecordNonEmpty(front);
      AppliedNonEmpty(Exec(Session(map[], map[]), front).last, us[|us| - 1].fields);
    }
  }

  /** So they are in step exactly when each field is as it was when a change of it last got out: a
      change that was missed is made up for by another one that gets out, or by changing back. */
  lemma {:induction false} InStepExactly(us: seq<Update>)
    requires forall i :: 0 <= i < |us| ==> DistinctNames(us[i].fields)
    ensures var s := Exec(Session(map[], map[]), us);
      s.known == s.last <==> forall name :: UpToDate(us, name)
  {
    var s := Exec(Session(map[], map[]), us);
    SessionExactly(us, "");
    forall name ensures UpToDate(us, name) <==> Lookup(s.known, name) == Lookup(s.last, name)
    {
      SessionExactly(us, name);
    }
    hide UpToDate, Exec;
    SameLookups(s.known, s.last);
  }

  lemma {:induction false} SameLookups(m: Fields, n: Fields)
    requires NonEmpty(m) && NonEmpty(n)
    ensures m == n <==> forall x :: Lookup(m, x) == Lookup(n, x)
  {
    if forall x :: Lookup(m, x) == Lookup(n, x) {
      forall x ensures x in m <==> x in n { assert Lookup(m, x) == Lookup(n, x); }
      forall x | x in m ensures m[x] == n[x] { assert Lookup(m, x) == Lookup(n, x); }
    }
  }

  /** Sending the same values again does not help: nothing is sent. */
  lemma {:induction false} AgainDoesNotHelp(us: seq<Update>, fs: seq<Field>, allowed: bool)
    requires DistinctNames(fs)
    ensures var s := Exec(Session(map[], map[]), us + [Update(fs, false)]); After(s, Update(fs, allowed)) == s
  {
    var before := Exec(Session(map[], map[]), us);
    var s := Exec(Session(map[], map[]), us + [Update(fs, false)]);
    assert (us + [Update(fs, false)])[..|us|] == us;
    assert s == After(before, Update(fs, false));
    RecordNonEmpty(us);
    CommandSuffices(before.last, fs);
    forall f | f in fs ensures Lookup(s.last, f.name) == f.value { FieldsKnown(before.last, fs, f); }
    var c := Command(s.last, fs);
    if c != [] {
      assert c[0] in c;
      CommandExactly(s.last, fs, c[0]);
    }
    CommandSuffices(s.last, fs);
    assert ApplyAll(s.last, []) == s.last && ApplyAll(s.known, []) == s.known;
  }
}
