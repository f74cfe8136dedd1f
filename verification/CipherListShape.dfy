/** What every rule string keeps true of the list, and of its groups of equal preference. */
module CipherListShape {
  import opened Bytes
  import opened CipherRules
  import opened CipherStrength
  import opened CipherScanner

  /** The active entries are behind the inactive ones. */
  ghost predicate ActiveLast(list: seq<Entry>) {
    forall i, j | 0 <= i < j < |list| :: list[i].active ==> list[j].active
  }

  ghost predicate NoDuplicates(list: seq<Entry>) {
    forall i, j | 0 <= i < j < |list| :: list[i].cipher != list[j].cipher
  }

  ghost predicate NoGroups(list: seq<Entry>) {
    forall i | 0 <= i < |list| :: !list[i].inGroup
  }

  ghost predicate InactiveUngrouped(list: seq<Entry>) {
    forall i | 0 <= i < |list| && !list[i].active :: !list[i].inGroup
  }

  /** The last entry is in no group or ends one, so that every run of entries flagged as
      grouped is followed by the entry that ends the group. */
  ghost predicate GroupsClosed(list: seq<Entry>) {
    list != [] ==> !list[|list| - 1].inGroup
  }

  /** A list of preferences between two turns of the scanning loop. */
  ghost predicate Orderly(list: seq<Entry>) {
    ActiveLast(list) && NoDuplicates(list) && InactiveUngrouped(list)
  }

  /** The invariant of the scanning loop. */
  ghost predicate Good(st: State) {
    && Orderly(st.list)
    && (st.inGroup ==> st.hasGroup)
    && (!st.hasGroup ==> NoGroups(st.list))
    && (!st.inGroup ==> GroupsClosed(st.list))
  }

  /** What a rule makes of one entry. */
  ghost function Image(rule: Rule, sel: Selector, inGroup: bool, e: Entry): Entry {
    if Hit(rule, sel, e) then Change(rule, inGroup, e) else e
  }

  lemma {:induction false} SelectOrigins<T>(s: seq<T>, h: seq<bool>, b: bool, i: nat, j: nat) returns (k: nat, l: nat)
    requires |s| == |h| && i <= j < |Select(s, h, b)|
    ensures k <= l < |s| && (i < j ==> k < l) && h[k] == b == h[l]
    ensures Select(s, h, b)[i] == s[k] && Select(s, h, b)[j] == s[l]
  {
    var d := if h[0] == b then 1 else 0;
    if j < d {
      return 0, 0;
    } else if i < d {
      var l', l'' := SelectOrigins(s[1..], h[1..], b, j - d, j - d);
      return 0, l' + 1;
    } else {
      k, l := SelectOrigins(s[1..], h[1..], b, i - d, j - d);
      k, l := k + 1, l + 1;
    }
  }

  /** Where two entries of the new list come from. */
  lemma Origins(rule: Rule, sel: Selector, inGroup: bool, list: seq<Entry>, i: nat, j: nat) returns (k: nat, l: nat)
    requires i < j < |CipherRules.Apply(rule, sel, inGroup, list)|
    ensures k < |list| && l < |list| && k != l
    ensures var r := CipherRules.Apply(rule, sel, inGroup, list);
            r[i] == Image(rule, sel, inGroup, list[k]) && r[j] == Image(rule, sel, inGroup, list[l])
    ensures if Hit(rule, sel, list[k]) == Hit(rule, sel, list[l]) then k < l else rule.Del? <==> Hit(rule, sel, list[k])
    ensures rule.Kill? ==> !Hit(rule, sel, list[k]) && !Hit(rule, sel, list[l])
  {
    hide Select, Hit, Change;
    var h := Hits(rule, sel, list);
    var rest, moved := Select(list, h, false), Select(list, h, true);
    var first, second := if rule.Del? then moved else rest, if rule.Del? then rest else moved;
    var k', l': nat;
    if j < |first| {
      k, l := SelectOrigins(list, h, rule.Del?, i, j);
    } else if i < |first| {
      k, k' := SelectOrigins(list, h, rule.Del?, i, i);
      l, l' := SelectOrigins(list, h, !rule.Del?, j - |first|, j - |first|);
    } else {
      k, l := SelectOrigins(list, h, !rule.Del?, i - |first|, j - |first|);
    }
  }

  lemma Origin(rule: Rule, sel: Selector, inGroup: bool, list: seq<Entry>, i: nat) returns (k: nat)
    requires i < |CipherRules.Apply(rule, sel, inGroup, list)|
    ensures k < |list| && CipherRules.Apply(rule, sel, inGroup, list)[i] == Image(rule, sel, inGroup, list[k])
    ensures rule.Kill? ==> !Hit(rule, sel, list[k])
  {
    hide Select, Hit, Change;
    var h := Hits(rule, sel, list);
    var first := Select(list, h, rule.Del?);
    var k': nat;
    if i < |first| {
      k, k' := SelectOrigins(list, h, rule.Del?, i, i);
    } else {
      k, k' := SelectOrigins(list, h, !rule.Del?, i - |first|, i - |first|);
    }
  }

  lemma ApplyKeepsOrder(rule: Rule, sel: Selector, inGroup: bool, list: seq<Entry>)
    requires ActiveLast(list) && NoDuplicates(list)
    ensures ActiveLast(CipherRules.Apply(rule, sel, inGroup, list))
        && NoDuplicates(CipherRules.Apply(rule, sel, inGroup, list))
  {
    hide CipherRules.Apply;
    var r := CipherRules.Apply(rule, sel, inGroup, list);
    forall i: nat, j: nat | i < j < |r|
      ensures r[i].active ==> r[j].active
      ensures r[i].cipher != r[j].cipher
    {
      var k, l := Origins(rule, sel, inGroup, list, i, j);
    }
  }

  lemma ApplyKeepsFlags(rule: Rule, sel: Selector, inGroup: bool, list: seq<Entry>)
    requires InactiveUngrouped(list)
    ensures InactiveUngrouped(CipherRules.Apply(rule, sel, inGroup, list))
    ensures !inGroup && NoGroups(list) ==> NoGroups(CipherRules.Apply(rule, sel, inGroup, list))
  {
    hide CipherRules.Apply;
    var r := CipherRules.Apply(rule, sel, inGroup, list);
    forall i: nat | i < |r|
      ensures !r[i].active ==> !r[i].inGroup
      ensures !inGroup && NoGroups(list) ==> !r[i].inGroup
    {
      var k := Origin(rule, sel, inGroup, list, i);
    }
  }

  lemma AddKeepsClosed(sel: Selector, list: seq<Entry>)
    requires GroupsClosed(list)
    ensures GroupsClosed(CipherRules.Apply(Add, sel, false, list))
  {
    if list != [] {
      var h, m := Hits(Add, sel, list), |list| - 1;
      assert list[..m + 1] == list && h[..m + 1] == h;
      SelectNext(list, h, m, false);
      SelectNext(list, h, m, true);
    }
  }

  /** One rule as the scanner uses it: only ADD once there are groups. */
  lemma ApplyKeepsGood(rule: Rule, sel: Selector, st: State)
    requires Good(st) && (st.hasGroup ==> rule.Add?)
    ensures Good(st.(list := CipherRules.Apply(rule, sel, st.inGroup, st.list)))
  {
    hide CipherRules.Apply;
    ApplyKeepsOrder(rule, sel, st.inGroup, st.list);
    ApplyKeepsFlags(rule, sel, st.inGroup, st.list);
    if st.hasGroup && !st.inGroup {
      AddKeepsClosed(sel, st.list);
    }
  }

  lemma {:induction false} SortingKeepsGood(st: State, low: nat)
    requires Good(st) && !st.hasGroup && low <= Max(st.list) + 1
    ensures Good(st.(list := Sorting(st.list, low)))
    decreases Max(st.list) + 1 - low
  {
    hide Sorting, CipherRules.Apply, Max, Orderly;
    if low == Max(st.list) + 1 {
      SortingStart(st.list);
    } else {
      SortingKeepsGood(st, low + 1);
      ApplyKeepsGood(Ord, StrengthSelector(low), st.(list := Sorting(st.list, low + 1)));
      SortingStep(st.list, low);
    }
  }

  lemma CloseGroupKeepsGood(st: State, text: string)
    requires Good(st)
    ensures Good(State(text, false, st.hasGroup, CloseGroup(st.list)))
  {
  }

  lemma StepKeepsGood(tables: Tables, strict: bool, st: State)
    requires Good(st)
    ensures var p := Step(tables, strict, st); p.Next? ==> Good(p.state)
  {
    hide CipherRules.Apply, ReadParts, NameLength, Sorting, CloseGroup, Orderly, Max;
    CloseGroupKeepsGood(st, if st.text == [] then [] else st.text[1..]);
    if !st.hasGroup {
      SortingKeepsGood(st, 0);
    }
    if st.text != [] {
      var (op, body) := ReadOperator(st.text);
      var parts := ReadParts(tables, strict, body, false, EVERYTHING);
      if op.Apply? && parts.Parts? && (st.hasGroup ==> op.rule.Add?) {
        ApplyKeepsGood(op.rule, parts.criteria.Selects(), st);
      }
    }
  }

  /** The list that a rule string leaves: the active ciphers are its tail, none is listed
      twice, and all groups are closed. */
  lemma {:induction false} RunKeepsGood(tables: Tables, strict: bool, st: State)
    requires Good(st)
    ensures var o := Run(tables, strict, st); o.Done? ==> Orderly(o.list) && GroupsClosed(o.list)
    decreases |st.text|
  {
    hide Good, Orderly;
    StepConsumes(tables, strict, st);
    StepKeepsGood(tables, strict, st);
    match Step(tables, strict, st)
    case Next(s) => RunKeepsGood(tables, strict, s);
    case Stop(o) => StopIsGood(tables, strict, st);
  }

  lemma StopIsGood(tables: Tables, strict: bool, st: State)
    requires Good(st)
    ensures var p := Step(tables, strict, st);
            p.Stop? && p.outcome.Done? ==> Orderly(p.outcome.list) && GroupsClosed(p.outcome.list)
  {
    hide CipherRules.Apply, ReadParts, NameLength, Sorting, CloseGroup, Orderly;
  }

  ghost predicate Listed(c: CipherInfo, list: seq<Entry>) {
    exists e :: e in list && e.cipher == c
  }

  /** Which ciphers a rule keeps: all but the ones it kills. */
  lemma ApplyCiphers(rule: Rule, sel: Selector, inGroup: bool, list: seq<Entry>, c: CipherInfo)
    ensures Listed(c, CipherRules.Apply(rule, sel, inGroup, list)) <==>
      Listed(c, list) && !(rule.Kill? && sel.Matches(c))
  {
    hide Select, Change, Selector.Matches;
    var r, h := CipherRules.Apply(rule, sel, inGroup, list), Hits(rule, sel, list);
    if e :| e in r && e.cipher == c {
      var i :| 0 <= i < |r| && r[i] == e;
      var k := Origin(rule, sel, inGroup, list, i);
      ImageCipher(rule, sel, inGroup, list[k]);
      assert list[k] in list;
    }
    if e :| e in list && e.cipher == c && !(rule.Kill? && sel.Matches(c)) {
      var k :| 0 <= k < |list| && list[k] == e;
      SelectMember(list, h, h[k], e);
      ImageCipher(rule, sel, inGroup, e);
      if h[k] {
        var t := Select(list, h, true);
        var i :| 0 <= i < |t| && t[i] == e;
        assert ChangeAll(rule, inGroup, t)[i] in r;
      } else {
        assert e in r;
      }
    }
  }

  lemma ImageCipher(rule: Rule, sel: Selector, inGroup: bool, e: Entry)
    ensures Image(rule, sel, inGroup, e).cipher == e.cipher == Change(rule, inGroup, e).cipher
    ensures rule.Kill? ==> Hit(rule, sel, e) == sel.Matches(e.cipher)
  {
  }
}
