/** What names in rule strings mean, over texts: unknown names, the names of ciphers, and what
    a rule does to the entries it selects. */
module CipherNames {
  import opened Bytes
  import opened CipherRules
  import opened CipherStrength
  import opened CipherScanner
  import opened CipherProgram
  import opened CipherAliases
  import opened CipherPreferences

  // ------------------------------------------------------------ looking names up

  /** The first cipher of that name gives its id; without one there is none. */
  lemma {:induction false} CipherFound(ciphers: seq<CipherInfo>, name: string)
    ensures (forall c | c in ciphers :: c.name != name) ==> CipherNamed(ciphers, name) == 0
    ensures forall i | 0 <= i < |ciphers| && ciphers[i].name == name
        && (forall j | 0 <= j < i :: ciphers[j].name != name)
              :: CipherNamed(ciphers, name) == ciphers[i].id
  {
    if ciphers != [] && ciphers[0].name != name {
      var rest := ciphers[1..];
      CipherFound(rest, name);
      forall i | 0 <= i < |ciphers| && ciphers[i].name == name && (forall j | 0 <= j < i :: ciphers[j].name != name)
        ensures CipherNamed(ciphers, name) == ciphers[i].id
      {
        assert rest[i - 1].name == name && forall j | 0 <= j < i - 1 :: rest[j] == ciphers[j + 1];
      }
    }
  }

  lemma {:induction false} AliasFound(aliases: seq<Alias>, name: string)
    ensures AliasNamed(aliases, name).None? <==> forall a | a in aliases :: a.name != name
    ensures forall i | 0 <= i < |aliases| && aliases[i].name == name
        && (forall j | 0 <= j < i :: aliases[j].name != name)
              :: AliasNamed(aliases, name) == Some(aliases[i])
  {
    if aliases != [] && aliases[0].name != name {
      var rest := aliases[1..];
      AliasFound(rest, name);
      assert aliases == [aliases[0]] + rest;
      forall i | 0 <= i < |aliases| && aliases[i].name == name && (forall j | 0 <= j < i :: aliases[j].name != name)
        ensures AliasNamed(aliases, name) == Some(aliases[i])
      {
        assert rest[i - 1].name == name && forall j | 0 <= j < i - 1 :: rest[j] == aliases[j + 1];
      }
    }
  }

  // ------------------------------------------------------------ unknown names

  /** No alias has this name, and no cipher unless the name is one of several. */
  ghost predicate Unknown(tables: Tables, names: seq<string>, i: nat) {
    && i < |names| && (forall a | a in tables.aliases :: a.name != names[i])
    && (|names| == 1 ==> forall c | c in tables.ciphers :: c.name != names[i])
  }

  ghost predicate HasUnknown(tables: Tables, names: seq<string>) {
    exists i :: Unknown(tables, names, i)
  }

  lemma SkipStays(tables: Tables, strict: bool, name: string, alone: bool, c: Criteria)
    ensures !strict ==> Part(tables, strict, name, alone, c).Some?
    ensures var p := Part(tables, strict, name, alone, c); c.skip && p.Some? ==> p.value.skip
  {
    hide CipherNamed, AliasNamed, Both;
  }

  lemma {:induction false} SkipRemains(tables: Tables, strict: bool, names: seq<string>, multi: bool, c: Criteria)
    ensures !strict ==> Resolve(tables, strict, names, multi, c).Some?
    ensures var r := Resolve(tables, strict, names, multi, c); c.skip && r.Some? ==> r.value.skip
  {
    hide Part;
    if names != [] {
      SkipStays(tables, strict, names[0], !multi && |names| == 1, c);
      var p := Part(tables, strict, names[0], !multi && |names| == 1, c);
      if p.Some? {
        SkipRemains(tables, strict, names[1..], true, p.value);
      }
    }
  }

  lemma UnknownPart(tables: Tables, strict: bool, name: string, alone: bool, c: Criteria)
    requires forall a | a in tables.aliases :: a.name != name
    requires alone ==> forall x | x in tables.ciphers :: x.name != name
    ensures var p := Part(tables, strict, name, alone, c); if strict then p.None? else p.Some? && p.value.skip
  {
    hide CipherNamed, AliasNamed, Both;
    CipherFound(tables.ciphers, name);
    AliasFound(tables.aliases, name);
  }

  lemma {:induction false} ResolveUnknown(tables: Tables, strict: bool, names: seq<string>, i: nat, multi: bool,
        c: Criteria)
    requires i < |names| && forall a | a in tables.aliases :: a.name != names[i]
    requires !multi && |names| == 1 ==> forall x | x in tables.ciphers :: x.name != names[i]
    ensures var r := Resolve(tables, strict, names, multi, c);
            if strict then r.None? else r.Some? && r.value.skip
    decreases |names|
  {
    hide Part;
    var alone := !multi && |names| == 1;
    var p := Part(tables, strict, names[0], alone, c);
    if i == 0 {
      UnknownPart(tables, strict, names[0], alone, c);
      if p.Some? {
        SkipRemains(tables, strict, names[1..], true, p.value);
      }
    } else {
      SkipStays(tables, strict, names[0], alone, c);
      if p.Some? {
        ResolveUnknown(tables, strict, names[1..], i - 1, true, p.value);
      }
    }
  }

  /** A rule with an unknown name does nothing, or in strict mode is an error. */
  lemma UnknownNames(tables: Tables, strict: bool, rule: Rule, names: seq<string>, inGroup: bool, list: seq<Entry>)
    requires HasUnknown(tables, names)
    ensures ApplyNames(tables, strict, rule, names, inGroup, list) == if strict then None else Some(list)
  {
    hide Resolve, CipherRules.Apply;
    var i: nat :| Unknown(tables, names, i);
    ResolveUnknown(tables, strict, names, i, false, EVERYTHING);
  }

  ghost predicate AllValid(items: seq<Item>) {
    forall i | 0 <= i < |items| :: ValidItem(items[i])
  }

  predicate HasGroup(items: seq<Item>) {
    exists i | 0 <= i < |items| :: items[i].Group?
  }

  /** What comes behind a list of items sees what they have left. */
  lemma {:induction false} MeaningAppend(tables: Tables, strict: bool, a: seq<Item>, b: seq<Item>, hasGroup: bool,
        list: seq<Entry>)
    ensures Meaning(tables, strict, a + b, hasGroup, list) ==
      match Meaning(tables, strict, a, hasGroup, list)
      case Rejected(e) => Rejected(e)
      case Done(l) => Meaning(tables, strict, b, hasGroup || HasGroup(a), l)
  {
    hide ItemMeaning;
    if a == [] {
      assert a + b == b;
    } else {
      assert (a + b)[1..] == a[1..] + b;
      GroupInFirst(a);
      match ItemMeaning(tables, strict, a[0], hasGroup, list)
      case Rejected(_) =>
      case Done(l) => MeaningAppend(tables, strict, a[1..], b, hasGroup || a[0].Group?, l);
    }
  }

  lemma GroupInFirst(a: seq<Item>)
    requires a != []
    ensures HasGroup(a) <==> a[0].Group? || HasGroup(a[1..])
  {
    if i :| 0 <= i < |a| && a[i].Group? {
      assert i > 0 ==> a[1..][i - 1].Group?;
    }
    if i :| 0 <= i < |a[1..]| && a[1..][i].Group? {
      assert a[i + 1].Group?;
    }
  }

  ghost function RunText(tables: Tables, strict: bool, items: seq<Item>, list: seq<Entry>): Outcome {
    Run(tables, strict, State(Text(items), false, false, list))
  }

  /** A rule with an unknown name anywhere in a rule string: the string means the same without
      it, unless operators are not allowed there any more; in strict mode it is an error. */
  lemma UnknownRule(tables: Tables, strict: bool, a: seq<Item>, rule: Rule, names: seq<string>, b: seq<Item>,
        list: seq<Entry>)
    requires AllValid(a) && AllValid(b) && ValidItem(Command(rule, names)) && HasUnknown(tables, names)
    ensures RunText(tables, strict, a + [Command(rule, names)] + b, list) ==
      if RunText(tables, strict, a, list).Rejected? then RunText(tables, strict, a, list)
      else if HasGroup(a) && !rule.Add? then Rejected(MixedSpecialOperatorWithGroups)
      else if strict then Rejected(InvalidCommand)
      else RunText(tables, strict, a + b, list)
  {
    hide Run, Text, ApplyNames, ValidItem, HasGroup, HasUnknown;
    var item := Command(rule, names);
    assert a + [item] + b == a + ([item] + b) && ([item] + b)[1..] == b;
    ScannerMeaning(tables, strict, a, false, list);
    ScannerMeaning(tables, strict, a + [item] + b, false, list);
    ScannerMeaning(tables, strict, a + b, false, list);
    MeaningAppend(tables, strict, a, [item] + b, false, list);
    MeaningAppend(tables, strict, a, b, false, list);
    var m := Meaning(tables, strict, a, false, list);
    if m.Done? {
      UnknownNames(tables, strict, rule, names, false, m.list);
    }
  }

  lemma {:induction false} UnknownInGroup(tables: Tables, strict: bool, a: seq<seq<string>>, names: seq<string>,
        b: seq<seq<string>>, list: seq<Entry>)
    requires HasUnknown(tables, names)
    ensures ApplyGroup(tables, strict, a + [names] + b, list) ==
      if strict then None else ApplyGroup(tables, strict, a + b, list)
  {
    hide ApplyNames, HasUnknown, CloseGroup;
    if a == [] {
      assert a + [names] + b == [names] + b && a + b == b && ([names] + b)[1..] == b;
      UnknownNames(tables, strict, Add, names, true, list);
    } else {
      assert (a + [names] + b)[1..] == a[1..] + [names] + b && (a + b)[1..] == a[1..] + b;
      match ApplyNames(tables, strict, Add, a[0], true, list)
      case None =>
      case Some(l) => UnknownInGroup(tables, strict, a[1..], names, b, l);
    }
  }

  /** An alternative of a group with an unknown name is passed over, or is an error. */
  lemma UnknownAlternative(tables: Tables, strict: bool, a: seq<seq<string>>, names: seq<string>,
        b: seq<seq<string>>, list: seq<Entry>)
    requires ValidItem(Group(a + [names] + b)) && ValidItem(Group(a + b)) && HasUnknown(tables, names)
    ensures RunText(tables, strict, [Group(a + [names] + b)], list) ==
      if strict then Rejected(InvalidCommand) else RunText(tables, strict, [Group(a + b)], list)
  {
    hide Run, Text, ApplyGroup, ValidItem, HasUnknown;
    ScannerMeaning(tables, strict, [Group(a + [names] + b)], false, list);
    ScannerMeaning(tables, strict, [Group(a + b)], false, list);
    OneItem(tables, strict, Group(a + [names] + b), list);
    OneItem(tables, strict, Group(a + b), list);
    UnknownInGroup(tables, strict, a, names, b, list);
  }

  lemma OneItem(tables: Tables, strict: bool, item: Item, list: seq<Entry>)
    ensures Meaning(tables, strict, [item], false, list) == ItemMeaning(tables, strict, item, false, list)
  {
    hide ItemMeaning;
    assert [item][1..] == [];
  }

  // ------------------------------------------------------------ what a rule does

  ghost function Where<T>(s: seq<T>, p: T -> bool): (r: seq<T>) {
    if s == [] then [] else (if p(s[0]) then [s[0]] else []) + Where(s[1..], p)
  }

  /** The entries with other flags. */
  ghost function Marked(s: seq<Entry>, active: bool, inGroup: bool): (r: seq<Entry>) {
    seq(|s|, i requires 0 <= i < |s| => Entry(s[i].cipher, active, inGroup))
  }

  /** What a rule does to the entries of the ciphers `p` selects: ADD activates those that are
      not active behind all others, ORD moves those that are active there, DEL takes them to
      the front and deactivates them, KILL drops all of them. The others stay as they are. */
  ghost function Effect(rule: Rule, p: CipherInfo -> bool, inGroup: bool, list: seq<Entry>): seq<Entry> {
    match rule
    case Add =>
      Where(list, (e: Entry) => e.active || !p(e.cipher))
        + Marked(Where(list, (e: Entry) => !e.active && p(e.cipher)), true, inGroup)
    case Ord =>
      Where(list, (e: Entry) => !e.active || !p(e.cipher))
        + Marked(Where(list, (e: Entry) => e.active && p(e.cipher)), true, false)
    case Del =>
      Marked(Where(list, (e: Entry) => e.active && p(e.cipher)), false, false)
        + Where(list, (e: Entry) => !e.active || !p(e.cipher))
    case Kill => Where(list, (e: Entry) => !p(e.cipher))
  }

  lemma {:induction false} SelectIsWhere<T>(s: seq<T>, h: seq<bool>, b: bool, p: T -> bool)
    requires |s| == |h| && forall i | 0 <= i < |s| :: h[i] == b <==> p(s[i])
    ensures Select(s, h, b) == Where(s, p)
  {
    if s != [] {
      SelectIsWhere(s[1..], h[1..], b, p);
    }
  }

  lemma {:induction false} WhereAll<T>(s: seq<T>, p: T -> bool)
    ensures forall i | 0 <= i < |Where(s, p)| :: p(Where(s, p)[i])
  {
    if s != [] {
      WhereAll(s[1..], p);
    }
  }

  lemma ApplyAdd(sel: Selector, p: CipherInfo -> bool, inGroup: bool, list: seq<Entry>)
    requires forall e: Entry | e in list :: sel.Matches(e.cipher) <==> p(e.cipher)
    ensures CipherRules.Apply(Add, sel, inGroup, list) == Effect(Add, p, inGroup, list)
  {
    hide Selector.Matches, Select, Where;
    var h := Hits(Add, sel, list);
    SelectIsWhere(list, h, false, (e: Entry) => e.active || !p(e.cipher));
    SelectIsWhere(list, h, true, (e: Entry) => !e.active && p(e.cipher));
    WhereAll(list, (e: Entry) => !e.active && p(e.cipher));
  }

  lemma ApplyOrd(sel: Selector, p: CipherInfo -> bool, inGroup: bool, list: seq<Entry>)
    requires forall e: Entry | e in list :: sel.Matches(e.cipher) <==> p(e.cipher)
    ensures CipherRules.Apply(Ord, sel, inGroup, list) == Effect(Ord, p, inGroup, list)
  {
    hide Selector.Matches, Select, Where;
    var h := Hits(Ord, sel, list);
    SelectIsWhere(list, h, false, (e: Entry) => !e.active || !p(e.cipher));
    SelectIsWhere(list, h, true, (e: Entry) => e.active && p(e.cipher));
    WhereAll(list, (e: Entry) => e.active && p(e.cipher));
  }

  lemma ApplyDel(sel: Selector, p: CipherInfo -> bool, inGroup: bool, list: seq<Entry>)
    requires forall e: Entry | e in list :: sel.Matches(e.cipher) <==> p(e.cipher)
    ensures CipherRules.Apply(Del, sel, inGroup, list) == Effect(Del, p, inGroup, list)
  {
    hide Selector.Matches, Select, Where;
    var h := Hits(Del, sel, list);
    SelectIsWhere(list, h, false, (e: Entry) => !e.active || !p(e.cipher));
    SelectIsWhere(list, h, true, (e: Entry) => e.active && p(e.cipher));
  }

  lemma ApplyKill(sel: Selector, p: CipherInfo -> bool, inGroup: bool, list: seq<Entry>)
    requires forall e: Entry | e in list :: sel.Matches(e.cipher) <==> p(e.cipher)
    ensures CipherRules.Apply(Kill, sel, inGroup, list) == Effect(Kill, p, inGroup, list)
  {
    hide Selector.Matches, Select, Where;
    SelectIsWhere(list, Hits(Kill, sel, list), false, (e: Entry) => !p(e.cipher));
  }

  /** A rule in plain words. */
  lemma RuleEffect(rule: Rule, sel: Selector, p: CipherInfo -> bool, inGroup: bool, list: seq<Entry>)
    requires forall e: Entry | e in list :: sel.Matches(e.cipher) <==> p(e.cipher)
    ensures CipherRules.Apply(rule, sel, inGroup, list) == Effect(rule, p, inGroup, list)
  {
    hide Selector.Matches, CipherRules.Apply, Effect;
    match rule
    case Add => ApplyAdd(sel, p, inGroup, list);
    case Ord => ApplyOrd(sel, p, inGroup, list);
    case Del => ApplyDel(sel, p, inGroup, list);
    case Kill => ApplyKill(sel, p, inGroup, list);
  }

  lemma {:induction false} WhereEvery<T>(s: seq<T>, p: T -> bool, b: bool)
    requires forall x | x in s :: p(x) == b
    ensures Where(s, p) == if b then s else []
  {
    if s != [] {
      assert s[0] in s && forall x | x in s[1..] :: x in s;
      WhereEvery(s[1..], p, b);
    }
  }

  lemma NothingSelected(rule: Rule, p: CipherInfo -> bool, inGroup: bool, list: seq<Entry>)
    requires forall e: Entry | e in list :: !p(e.cipher)
    ensures Effect(rule, p, inGroup, list) == list
  {
    hide Where;
    WhereEvery(list, (e: Entry) => e.active || !p(e.cipher), true);
    WhereEvery(list, (e: Entry) => !e.active || !p(e.cipher), true);
    WhereEvery(list, (e: Entry) => !p(e.cipher), true);
    WhereEvery(list, (e: Entry) => !e.active && p(e.cipher), false);
    WhereEvery(list, (e: Entry) => e.active && p(e.cipher), false);
  }

  // ------------------------------------------------------------ the names of ciphers and aliases

  lemma RunOneRule(tables: Tables, strict: bool, rule: Rule, names: seq<string>, list: seq<Entry>)
    requires ValidItem(Command(rule, names))
    ensures RunText(tables, strict, [Command(rule, names)], list) ==
      match ApplyNames(tables, strict, rule, names, false, list)
      case None => Rejected(InvalidCommand)
      case Some(l) => Done(l)
  {
    hide Run, Text, ApplyNames, ValidItem;
    ScannerMeaning(tables, strict, [Command(rule, names)], false, list);
    OneItem(tables, strict, Command(rule, names), list);
  }

  /** A rule of one name that is a cipher's acts on exactly the entries with its id. */
  lemma CipherRule(tables: Tables, strict: bool, rule: Rule, name: string, i: nat, list: seq<Entry>)
    requires ValidItem(Command(rule, [name])) && i < |tables.ciphers| && tables.ciphers[i].name == name
    requires tables.ciphers[i].id != 0 && forall j | 0 <= j < i :: tables.ciphers[j].name != name
    ensures RunText(tables, strict, [Command(rule, [name])], list) ==
      Done(Effect(rule, (c: CipherInfo) => c.id == tables.ciphers[i].id, false, list))
  {
    hide RunText, CipherRules.Apply, Effect, ValidItem, CipherNamed;
    RunOneRule(tables, strict, rule, [name], list);
    CipherFound(tables.ciphers, name);
    var d := EVERYTHING.(cipherId := tables.ciphers[i].id);
    assert Part(tables, strict, name, true, EVERYTHING) == Some(d);
    assert Resolve(tables, strict, [name], false, EVERYTHING) == Some(d) by {
      assert [name][1..] == [];
    }
    RuleEffect(rule, d.Selects(), (c: CipherInfo) => c.id == tables.ciphers[i].id, false, list);
  }

  ghost predicate Usual(list: seq<Entry>) {
    forall e: Entry | e in list ::
      OneBitEach(e.cipher) && e.cipher.mkey != 0 && e.cipher.auth != 0 && e.cipher.enc != 0 && e.cipher.mac != 0
  }

  /** The ciphers that all aliases stand for, if those without a version come first. */
  ghost predicate InAll(aliases: seq<Alias>, c: CipherInfo) {
    VersionsLast(aliases) && forall k | 0 <= k < |aliases| :: Stands(aliases[k], c)
  }

  lemma ResolveAliases(tables: Tables, strict: bool, names: seq<string>, aliases: seq<Alias>)
    requires AreAliases(tables, names, aliases)
    requires |names| == 1 ==> CipherNamed(tables.ciphers, names[0]) == 0
    ensures Resolve(tables, strict, names, false, EVERYTHING) == Some(NarrowAll(EVERYTHING, aliases))
  {
    hide Criteria.Narrow, CipherNamed, AliasNamed;
    if |names| == 1 {
      assert names[1..] == [] && aliases[1..] == [];
      assert NarrowAll(EVERYTHING, aliases) == EVERYTHING.Narrow(aliases[0]);
    } else {
      ResolveNarrows(tables, strict, names, aliases, false, EVERYTHING);
    }
  }

  /** A rule of aliases, over its text: it acts on exactly the ciphers that all of them stand for,
      or on nothing if one with a version comes before one without. */
  lemma AliasRule(tables: Tables, strict: bool, rule: Rule, names: seq<string>, aliases: seq<Alias>, list: seq<Entry>)
    requires ValidItem(Command(rule, names)) && AreAliases(tables, names, aliases) && Usual(list)
    requires |names| == 1 ==> forall c | c in tables.ciphers :: c.name != names[0]
    ensures RunText(tables, strict, [Command(rule, names)], list) ==
      Done(Effect(rule, (c: CipherInfo) => InAll(aliases, c), false, list))
  {
    hide RunText, CipherRules.Apply, Effect, ValidItem, CipherNamed, NarrowAll, AreAliases, InAll, Resolve,
      Selector.Matches, Criteria.Selects, OneBitEach;
    RunOneRule(tables, strict, rule, names, list);
    if |names| == 1 {
      CipherFound(tables.ciphers, names[0]);
    }
    ResolveAliases(tables, strict, names, aliases);
    var d := NarrowAll(EVERYTHING, aliases);
    var p := (c: CipherInfo) => InAll(aliases, c);
    forall e: Entry | e in list
      ensures Selected(d, e.cipher) <==> p(e.cipher)
    {
      AliasesSelect(aliases, e.cipher);
    }
    if d.skip {
      NothingSelected(rule, p, false, list);
    } else {
      RuleEffect(rule, d.Selects(), p, false, list);
    }
  }

  lemma AliasesSelect(aliases: seq<Alias>, c: CipherInfo)
    requires OneBitEach(c) && c.mkey != 0 && c.auth != 0 && c.enc != 0 && c.mac != 0
    ensures Selected(NarrowAll(EVERYTHING, aliases), c) <==> InAll(aliases, c)
  {
    hide OneBitEach, Stands, NarrowAll, Selected, VersionsLast;
    NarrowAllSelects(EVERYTHING, aliases, c);
    EverythingSelects(c);
  }

  // ------------------------------------------------------------ groups

  lemma {:induction false} WhereJoin<T>(s: seq<T>, t: seq<T>, p: T -> bool)
    ensures Where(s + t, p) == Where(s, p) + Where(t, p)
  {
    if s == [] {
      assert s + t == t;
    } else {
      assert (s + t)[1..] == s[1..] + t && (s + t)[0] == s[0];
      WhereJoin(s[1..], t, p);
      var first := if p(s[0]) then [s[0]] else [];
      assert Where(s + t, p) == first + Where((s + t)[1..], p) && Where(s, p) == first + Where(s[1..], p);
    }
  }

  lemma {:induction false} WhereOfWhere<T>(s: seq<T>, p: T -> bool, q: T -> bool)
    requires forall x | x in s :: q(x) ==> p(x)
    ensures Where(Where(s, p), q) == Where(s, q)
  {
    if s != [] {
      assert s[0] in s && forall x | x in s[1..] :: x in s;
      WhereOfWhere(s[1..], p, q);
      WhereJoin(if p(s[0]) then [s[0]] else [], Where(s[1..], p), q);
    }
  }

  ghost function Actives(list: seq<Entry>): seq<Entry> {
    Where(list, (e: Entry) => e.active)
  }

  ghost predicate Open(added: seq<Entry>) {
    forall e: Entry | e in added :: e.active && e.inGroup
  }

  /** One alternative: what has been added stays, and more may be added behind it. */
  lemma AlternativeAdds(sel: Selector, kept: seq<Entry>, added: seq<Entry>) returns (kept': seq<Entry>,
        more: seq<Entry>)
    requires Open(added)
    ensures CipherRules.Apply(Add, sel, true, kept + added) == kept' + (added + more)
    ensures Open(added + more) && Actives(kept') == Actives(kept)
  {
    hide Where, CipherRules.Apply, Selector.Matches;
    var list, p := kept + added, (c: CipherInfo) => sel.Matches(c);
    var stays := (e: Entry) => e.active || !p(e.cipher);
    RuleEffect(Add, sel, p, true, list);
    WhereJoin(kept, added, stays);
    WhereEvery(added, stays, true);
    WhereOfWhere(kept, stays, (e: Entry) => e.active);
    kept', more := Where(kept, stays), Marked(Where(list, (e: Entry) => !e.active && p(e.cipher)), true, true);
  }

  /** What a group leaves: `kept` with all that was active, then what the group has added. */
  ghost predicate Leaves(list: seq<Entry>, kept: seq<Entry>, added: seq<Entry>, l: seq<Entry>) {
    && Actives(kept) == Actives(list)
    && |l| == |kept| + |added|
    && (forall k | 0 <= k < |kept| ::
          l[k] == if k == |l| - 1 then kept[k].(inGroup := false) else kept[k])
    && (forall k | 0 <= k < |added| ::
          l[|kept| + k] == added[k] && added[k].active && (added[k].inGroup <==> k + 1 < |added|))
  }

  lemma CloseLeaves(list: seq<Entry>, kept: seq<Entry>, added: seq<Entry>) returns (closed: seq<Entry>)
    requires Open(added) && Actives(kept) == Actives(list)
    ensures Leaves(list, kept, closed, CloseGroup(kept + added))
  {
    hide Actives;
    closed := if added == [] then [] else added[|added| - 1 := added[|added| - 1].(inGroup := false)];
  }

  lemma {:induction false} GroupAdds(tables: Tables, strict: bool, alternatives: seq<seq<string>>, list: seq<Entry>,
        kept: seq<Entry>, added: seq<Entry>) returns (kept': seq<Entry>, added': seq<Entry>)
    requires Open(added) && Actives(kept) == Actives(list)
    requires ApplyGroup(tables, strict, alternatives, kept + added).Some?
    ensures Leaves(list, kept', added', ApplyGroup(tables, strict, alternatives, kept + added).value)
    decreases |alternatives|
  {
    hide Actives, Open, Leaves, Resolve, CloseGroup, CipherRules.Apply, Criteria.Selects;
    if alternatives == [] {
      added' := CloseLeaves(list, kept, added);
      kept' := kept;
    } else {
      var c := Resolve(tables, strict, alternatives[0], false, EVERYTHING).value;
      if c.skip {
        kept', added' := GroupAdds(tables, strict, alternatives[1..], list, kept, added);
      } else {
        var k, more := AlternativeAdds(c.Selects(), kept, added);
        kept', added' := GroupAdds(tables, strict, alternatives[1..], list, k, added + more);
      }
    }
  }

  /** A bracketed group, over its text: all ciphers it adds come last and are of equal
      preference, every one but the last being marked as continued; the ciphers that were
      active before keep their order. */
  lemma GroupRule(tables: Tables, strict: bool, alternatives: seq<seq<string>>, list: seq<Entry>)
    requires ValidItem(Group(alternatives))
    ensures var o := RunText(tables, strict, [Group(alternatives)], list);
            if o.Rejected? then o.error == InvalidCommand
            else exists kept, added :: Leaves(list, kept, added, o.list)
  {
    hide Run, Text, ApplyGroup, ValidItem, Leaves, Actives;
    ScannerMeaning(tables, strict, [Group(alternatives)], false, list);
    OneItem(tables, strict, Group(alternatives), list);
    if ApplyGroup(tables, strict, alternatives, list).Some? {
      assert list + [] == list;
      var kept, added := GroupAdds(tables, strict, alternatives, list, list, []);
    }
  }

  // ------------------------------------------------------------ texts that are no rules

  /** Colons, blanks, semicolons and commas between items mean nothing. */
  lemma SeparatorsMeanNothing(tables: Tables, strict: bool, text: string, hasGroup: bool, list: seq<Entry>)
    requires text != "" && text[0] in ": ;,"
    ensures Run(tables, strict, State(text, false, hasGroup, list))
         == Run(tables, strict, State(text[1..], false, hasGroup, list))
  {
    hide RuleCommand, SpecialCommand, CloseGroup;
    assert Step(tables, strict, State(text, false, hasGroup, list)) == Next(State(text[1..], false, hasGroup, list));
  }

  /** An operator or a separator in a group is an error. */
  lemma NoOperatorInGroup(tables: Tables, strict: bool, text: string, hasGroup: bool, list: seq<Entry>)
    requires text != "" && text[0] in "-+!@[:"
    ensures Run(tables, strict, State(text, true, hasGroup, list)) == Rejected(UnexpectedOperatorInGroup)
  {
    hide SpecialCommand, RuleCommand, CloseGroup;
    assert Step(tables, strict, State(text, true, hasGroup, list)) == Stop(Rejected(UnexpectedOperatorInGroup));
  }

  /** A group must be closed, and what is not open cannot be. */
  lemma Unclosed(tables: Tables, strict: bool, text: string, inGroup: bool, hasGroup: bool, list: seq<Entry>)
    requires if inGroup then text == "" else text != "" && text[0] in "]|*"
    ensures Run(tables, strict, State(text, inGroup, hasGroup, list)) == Rejected(InvalidCommand)
  {
    hide SpecialCommand, CloseGroup, CipherRules.Apply;
    assert Step(tables, strict, State(text, inGroup, hasGroup, list)) == Stop(Rejected(InvalidCommand));
  }

  // ------------------------------------------------------------ rule strings as a whole

  /** A rule string that begins with DEFAULT means the one that begins with the rule ALL. */
  lemma DefaultMeansAll(tables: Tables, strict: bool, items: seq<Item>, list: seq<Entry>)
    requires AllValid(items)
    ensures ProcessRules(tables, strict, if items == [] then "DEFAULT" else "DEFAULT:" + Text(items), list) ==
      RunText(tables, strict, [Command(Add, ["ALL"])] + items, list)
  {
    hide Run, ItemMeaning, ApplyNames, Text;
    var text, all := if items == [] then "DEFAULT" else "DEFAULT:" + Text(items), [Command(Add, ["ALL"])];
    AllIsItem();
    assert text[..7] == "DEFAULT" && AfterDefault(text) == if items == [] then "" else Text(items) by {
      if items != [] {
        assert text[7] == ':' && text[8..] == Text(items);
      }
    }
    EmptyText([]);
    ScannerMeaning(tables, strict, all, false, list);
    ScannerMeaning(tables, strict, all + items, false, list);
    MeaningAppend(tables, strict, all, items, false, list);
    match Meaning(tables, strict, all, false, list)
    case Rejected(_) =>
    case Done(l) => ScannerMeaning(tables, strict, items, false, l);
  }

  lemma AllIsItem()
    ensures ValidItem(Command(Add, ["ALL"])) && Text([Command(Add, ["ALL"])]) == "ALL"
    ensures !HasGroup([Command(Add, ["ALL"])])
  {
  }

  /** Any other rule string means what it says. */
  lemma OthersMeanThemselves(tables: Tables, strict: bool, items: seq<Item>, list: seq<Entry>)
    requires AllValid(items) && !("DEFAULT" <= Text(items))
    ensures ProcessRules(tables, strict, Text(items), list) == Meaning(tables, strict, items, false, list)
  {
    hide Run, Text, Meaning;
    ScannerMeaning(tables, strict, items, false, list);
  }

  /** The list of preferences is the active entries in their order, each with its flag. */
  lemma {:induction false} PreferencesExactly(list: seq<Entry>)
    ensures var p, a := Active(list), Actives(list);
            && |p.ciphers| == |p.inGroup| == |a|
            && forall i | 0 <= i < |a| :: p.ciphers[i] == a[i].cipher && p.inGroup[i] == a[i].inGroup
  {
    if list != [] {
      PreferencesExactly(list[1..]);
      var first := if list[0].active then [list[0]] else [];
      assert Actives(list) == first + Actives(list[1..]);
    }
  }
}
