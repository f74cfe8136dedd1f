/** Which ciphers are left when a rule string has been processed. */
module CipherFate {
  import opened Bytes
  import opened CipherRules
  import opened CipherStrength
  import opened CipherScanner
  import opened CipherListShape

  lemma {:induction false} SortingCiphers(list: seq<Entry>, low: nat, c: CipherInfo)
    requires low <= Max(list) + 1
    ensures Listed(c, Sorting(list, low)) <==> Listed(c, list)
    decreases Max(list) + 1 - low
  {
    hide Sorting, CipherRules.Apply, Max, Listed;
    if low == Max(list) + 1 {
      SortingStart(list);
    } else {
      SortingCiphers(list, low + 1, c);
      SortingStep(list, low);
      ApplyCiphers(Ord, StrengthSelector(low), false, Sorting(list, low + 1), c);
    }
  }

  lemma CloseGroupCiphers(list: seq<Entry>, c: CipherInfo)
    ensures Listed(c, CloseGroup(list)) <==> Listed(c, list)
  {
    if list != [] {
      var l, r := list[|list| - 1], CloseGroup(list);
      assert r[|list| - 1] == l.(inGroup := false);
      forall i | 0 <= i < |list| - 1
        ensures list[i] == r[i] && list[i] in r && r[i] in list
      {
      }
      assert l in list && r[|list| - 1] in r;
      if e :| e in list && e.cipher == c {
        assert e == l || e in r;
      }
      if e :| e in r && e.cipher == c {
        assert e == r[|list| - 1] || e in list;
      }
    }
  }

  lemma StepCiphers(tables: Tables, strict: bool, st: State, c: CipherInfo)
    ensures var p := Step(tables, strict, st); p.Next? && Listed(c, p.state.list) ==> Listed(c, st.list)
    ensures var p := Step(tables, strict, st);
            p.Next? && Peek(st.text, 0) != '!' && Listed(c, st.list) ==> Listed(c, p.state.list)
  {
    hide CipherRules.Apply, ReadParts, NameLength, Sorting, CloseGroup, Listed, Selector.Matches, Max;
    CloseGroupCiphers(st.list, c);
    SortingCiphers(st.list, 0, c);
    if st.text != [] {
      var (op, body) := ReadOperator(st.text);
      var parts := ReadParts(tables, strict, body, false, EVERYTHING);
      if op.Apply? && parts.Parts? {
        ApplyCiphers(op.rule, parts.criteria.Selects(), st.inGroup, st.list, c);
      }
    }
  }

  /** A rule string adds no ciphers to the list it is given. */
  lemma {:induction false} RunOnlyForgets(tables: Tables, strict: bool, st: State, c: CipherInfo)
    ensures var o := Run(tables, strict, st); o.Done? && Listed(c, o.list) ==> Listed(c, st.list)
    decreases |st.text|
  {
    hide Listed, Step;
    StepConsumes(tables, strict, st);
    StepCiphers(tables, strict, st, c);
    StopsWithItsList(tables, strict, st);
    match Step(tables, strict, st)
    case Next(s) => RunOnlyForgets(tables, strict, s, c);
    case Stop(o) =>
  }

  lemma StopsWithItsList(tables: Tables, strict: bool, st: State)
    ensures var p := Step(tables, strict, st); p.Stop? && p.outcome.Done? ==> p.outcome.list == st.list
  {
    hide CipherRules.Apply, ReadParts, NameLength, Sorting, CloseGroup;
  }

  /** A cipher selected by a `!` rule is not in the list any more when the rest of the
      rule string, whatever it is, has been processed. */
  lemma KilledForGood(tables: Tables, strict: bool, st: State, c: CipherInfo)
    requires !st.inGroup && Peek(st.text, 0) == '!'
    requires var p := ReadParts(tables, strict, st.text[1..], false, EVERYTHING);
             p.Parts? && !p.criteria.skip && p.criteria.Selects().Matches(c)
    ensures var o := Run(tables, strict, st); o.Done? ==> !Listed(c, o.list)
  {
    hide CipherRules.Apply, ReadParts, Selector.Matches, Listed;
    StepConsumes(tables, strict, st);
    var p := ReadParts(tables, strict, st.text[1..], false, EVERYTHING);
    ApplyCiphers(Kill, p.criteria.Selects(), st.inGroup, st.list, c);
    var next := Step(tables, strict, st);
    if next.Next? {
      RunOnlyForgets(tables, strict, next.state, c);
    }
  }

  predicate Lacks(text: string, ch: char) {
    forall i | 0 <= i < |text| :: text[i] != ch
  }

  ghost predicate Suffix(s: string, t: string) {
    |s| <= |t| && s == t[|t| - |s|..]
  }

  lemma DropIsSuffix(t: string, n: nat)
    requires n <= |t|
    ensures Suffix(t[n..], t) && Suffix(t, t)
  {
    assert t[n..] == t[|t| - |t[n..]|..] && t == t[0..];
  }

  lemma SuffixOfSuffix(r: string, s: string, t: string)
    requires Suffix(r, s) && Suffix(s, t)
    ensures Suffix(r, t)
  {
    var k, l := |t| - |s|, |s| - |r|;
    assert t[k..][l..] == t[k + l..];
  }

  lemma SuffixLacks(s: string, t: string, ch: char)
    requires Suffix(s, t) && Lacks(t, ch)
    ensures Lacks(s, ch)
  {
  }

  lemma {:induction false} AfterCommandIsSuffix(text: string)
    ensures Suffix(AfterCommand(text), text)
  {
    hide Suffix;
    DropIsSuffix(text, 0);
    if AfterCommand(text) != text {
      AfterCommandIsSuffix(text[1..]);
      DropIsSuffix(text, 1);
      SuffixOfSuffix(AfterCommand(text), text[1..], text);
    }
  }

  lemma {:induction false} PartsAreSuffix(tables: Tables, strict: bool, text: string, multi: bool, c: Criteria)
    ensures var p := ReadParts(tables, strict, text, multi, c); p.Parts? ==> Suffix(p.rest, text)
  {
    hide Part, Suffix, NameLength;
    var p, n := ReadParts(tables, strict, text, multi, c), NameLength(text);
    DropIsSuffix(text, n);
    if p.Parts? && Peek(text, n) == '+' {
      var d := Part(tables, strict, text[..n], false, c).value;
      PartsAreSuffix(tables, strict, text[n + 1..], true, d);
      DropIsSuffix(text, n + 1);
      SuffixOfSuffix(p.rest, text[n + 1..], text);
    }
  }

  lemma CommandIsSuffix(tables: Tables, strict: bool, op: Operator, body: string, st: State)
    ensures var p := match op
                     case Special => SpecialCommand(body, st)
                     case Apply(rule) => RuleCommand(tables, strict, rule, body, st);
            p.Next? ==> Suffix(p.state.text, body)
  {
    hide CipherRules.Apply, ReadParts, NameLength, Sorting, AfterCommand, Suffix;
    PartsAreSuffix(tables, strict, body, false, EVERYTHING);
    var rest := body[NameLength(body)..];
    DropIsSuffix(body, NameLength(body));
    AfterCommandIsSuffix(rest);
    SuffixOfSuffix(AfterCommand(rest), rest, body);
  }

  lemma OperatorIsSuffix(text: string)
    requires text != []
    ensures Suffix(ReadOperator(text).1, text)
  {
    hide Suffix;
    DropIsSuffix(text, 1);
  }

  /** Each turn of the scan goes on with an end of the text. */
  lemma StepIsSuffix(tables: Tables, strict: bool, st: State)
    ensures var p := Step(tables, strict, st); p.Next? ==> Suffix(p.state.text, st.text)
  {
    hide RuleCommand, SpecialCommand, CloseGroup, Suffix, ReadOperator, Alnum, ItemSeparator;
    if st.text != [] {
      var (op, body) := ReadOperator(st.text);
      DropIsSuffix(st.text, 1);
      OperatorIsSuffix(st.text);
      CommandIsSuffix(tables, strict, op, body, st);
      var p := Step(tables, strict, st);
      if p.Next? && Suffix(p.state.text, body) {
        SuffixOfSuffix(p.state.text, body, st.text);
      }
    }
  }

  lemma StepKeepsLacking(tables: Tables, strict: bool, st: State, ch: char)
    requires Lacks(st.text, ch)
    ensures var p := Step(tables, strict, st); p.Next? ==> Lacks(p.state.text, ch)
  {
    hide Step, Suffix, Lacks;
    StepIsSuffix(tables, strict, st);
    if Step(tables, strict, st).Next? {
      SuffixLacks(Step(tables, strict, st).state.text, st.text, ch);
    }
  }

  /** Rules other than `!` lose no cipher: whatever was disabled can be enabled again. */
  lemma {:induction false} NothingLostWithoutKill(tables: Tables, strict: bool, st: State, c: CipherInfo)
    requires Lacks(st.text, '!')
    ensures var o := Run(tables, strict, st); o.Done? && Listed(c, st.list) ==> Listed(c, o.list)
    decreases |st.text|
  {
    hide Listed, Step;
    StepConsumes(tables, strict, st);
    StepCiphers(tables, strict, st, c);
    StepKeepsLacking(tables, strict, st, '!');
    StopsWithItsList(tables, strict, st);
    match Step(tables, strict, st)
    case Next(s) => NothingLostWithoutKill(tables, strict, s, c);
    case Stop(o) =>
  }

  /** Without brackets there are no groups. */
  lemma {:induction false} NoGroupsWithoutBracket(tables: Tables, strict: bool, st: State)
    requires Lacks(st.text, '[') && Good(st) && !st.hasGroup
    ensures var o := Run(tables, strict, st); o.Done? ==> NoGroups(o.list)
    decreases |st.text|
  {
    hide Step, Good;
    StepConsumes(tables, strict, st);
    StepKeepsGood(tables, strict, st);
    StepKeepsLacking(tables, strict, st, '[');
    StepOpensNoGroup(tables, strict, st);
    StopsWithItsList(tables, strict, st);
    match Step(tables, strict, st)
    case Next(s) => NoGroupsWithoutBracket(tables, strict, s);
    case Stop(o) => assert NoGroups(st.list) by { NoGroupsYet(st); }
  }

  lemma NoGroupsYet(st: State)
    requires Good(st) && !st.hasGroup
    ensures NoGroups(st.list)
  {
  }

  lemma StepOpensNoGroup(tables: Tables, strict: bool, st: State)
    requires Peek(st.text, 0) != '['
    ensures var p := Step(tables, strict, st); p.Next? ==> p.state.hasGroup == st.hasGroup
  {
    hide CipherRules.Apply, ReadParts, NameLength, Sorting, CloseGroup, AfterCommand;
  }
}
