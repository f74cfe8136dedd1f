/** The meaning of rule strings: a grammar for them, what its phrases mean, and that the
    scanner gives every phrase its meaning. */
module CipherProgram {
  import opened Bytes
  import opened CipherRules
  import opened CipherStrength
  import opened CipherScanner

  datatype Item =
    | Command(rule: Rule, names: seq<string>)
    | Strength
    | Group(alternatives: seq<seq<string>>)

  predicate ValidName(name: string) {
    name != "" && forall i | 0 <= i < |name| :: NameChar(name[i])
  }

  predicate ValidNames(names: seq<string>) {
    names != [] && forall i | 0 <= i < |names| :: ValidName(names[i])
  }

  /** A rule without operator must not look like one with an operator, and within a group
      each alternative begins with a letter or a digit. */
  predicate ValidItem(item: Item) {
    match item
    case Command(rule, names) => ValidNames(names) && (rule.Add? ==> names[0][0] != '-')
    case Strength => true
    case Group(alternatives) =>
      forall i | 0 <= i < |alternatives| :: ValidNames(alternatives[i]) && Alnum(alternatives[i][0][0])
  }

  function OperatorText(rule: Rule): string {
    match rule
    case Add => ""
    case Ord => "+"
    case Del => "-"
    case Kill => "!"
  }

  function NamesText(names: seq<string>): string {
    if names == [] then "" else if |names| == 1 then names[0] else names[0] + "+" + NamesText(names[1..])
  }

  /** The alternatives of a group with the bracket that closes it. */
  function AlternativesText(alternatives: seq<seq<string>>): string {
    if alternatives == [] then "]"
    else NamesText(alternatives[0]) + (if |alternatives| == 1 then "" else "|") + AlternativesText(alternatives[1..])
  }

  function ItemText(item: Item): string {
    match item
    case Command(rule, names) => OperatorText(rule) + NamesText(names)
    case Strength => "@STRENGTH"
    case Group(alternatives) => "[" + AlternativesText(alternatives)
  }

  /** A rule string. */
  function Text(items: seq<Item>): string {
    if items == [] then "" else if |items| == 1 then ItemText(items[0]) else ItemText(items[0]) + ":" + Text(items[1..])
  }

  /** What the names of a rule select together. */
  function Resolve(tables: Tables, strict: bool, names: seq<string>, multi: bool, c: Criteria): Option<Criteria> {
    if names == [] then Some(c)
    else
      match Part(tables, strict, names[0], !multi && |names| == 1, c)
      case None => None
      case Some(d) => Resolve(tables, strict, names[1..], true, d)
  }

  ghost function ApplyNames(
    tables: Tables, strict: bool, rule: Rule, names: seq<string>, inGroup: bool, list: seq<Entry>)
    : Option<seq<Entry>>
  {
    match Resolve(tables, strict, names, false, EVERYTHING)
    case None => None
    case Some(c) => Some(if c.skip then list else CipherRules.Apply(rule, c.Selects(), inGroup, list))
  }

  ghost function ApplyGroup(tables: Tables, strict: bool, alternatives: seq<seq<string>>, list: seq<Entry>)
    : Option<seq<Entry>>
  {
    if alternatives == [] then Some(CloseGroup(list))
    else
      match ApplyNames(tables, strict, Add, alternatives[0], true, list)
      case None => None
      case Some(l) => ApplyGroup(tables, strict, alternatives[1..], l)
  }

  /** Once there are groups, rules may only add to the list. */
  predicate Reorders(item: Item) {
    item.Strength? || (item.Command? && !item.rule.Add?)
  }

  /** What one item means. */
  ghost function ItemMeaning(tables: Tables, strict: bool, item: Item, hasGroup: bool, list: seq<Entry>): Outcome {
    if hasGroup && Reorders(item) then Rejected(MixedSpecialOperatorWithGroups)
    else
      var r := match item
               case Command(rule, names) => ApplyNames(tables, strict, rule, names, false, list)
               case Strength => Some(Sorting(list, 0))
               case Group(alternatives) => ApplyGroup(tables, strict, alternatives, list);
      match r
      case None => Rejected(InvalidCommand)
      case Some(l) => Done(l)
  }

  /** What a rule string means. */
  ghost function Meaning(tables: Tables, strict: bool, items: seq<Item>, hasGroup: bool, list: seq<Entry>): Outcome {
    if items == [] then Done(list)
    else
      match ItemMeaning(tables, strict, items[0], hasGroup, list)
      case Rejected(e) => Rejected(e)
      case Done(l) => Meaning(tables, strict, items[1..], hasGroup || items[0].Group?, l)
  }

  lemma {:induction false} NameEnds(name: string, tail: string)
    requires forall i | 0 <= i < |name| :: NameChar(name[i])
    requires !NameChar(Peek(tail, 0))
    ensures NameLength(name + tail) == |name|
  {
    if name == "" {
      assert name + tail == tail;
    } else {
      assert (name + tail)[1..] == name[1..] + tail;
      NameEnds(name[1..], tail);
    }
  }

  /** Reading one name and what is behind it. */
  lemma NameRead(tables: Tables, strict: bool, name: string, behind: string, multi: bool, c: Criteria)
    requires ValidName(name) && !NameChar(Peek(behind, 0))
    ensures ReadParts(tables, strict, name + behind, multi, c)
         == match Part(tables, strict, name, !multi && Peek(behind, 0) != '+', c)
            case None => BadParts
            case Some(d) =>
              if Peek(behind, 0) == '+' then ReadParts(tables, strict, behind[1..], true, d) else Parts(d, behind)
  {
    hide Part, NameLength;
    NameEnds(name, behind);
    var text := name + behind;
    assert text[..|name|] == name && text[|name|..] == behind && Peek(text, |name|) == Peek(behind, 0);
    if Peek(behind, 0) == '+' {
      assert text[|name| + 1..] == behind[1..];
    }
  }

  /** Reading back the names of a rule. */
  lemma {:induction false} NamesRead(tables: Tables, strict: bool, names: seq<string>, tail: string, multi: bool,
        c: Criteria)
    requires ValidNames(names) && !NameChar(Peek(tail, 0)) && Peek(tail, 0) != '+'
    ensures ReadParts(tables, strict, NamesText(names) + tail, multi, c)
         == match Resolve(tables, strict, names, multi, c) case None => BadParts case Some(d) => Parts(d, tail)
  {
    hide Part, ReadParts, ValidName;
    var name := names[0];
    if |names| == 1 {
      NameRead(tables, strict, name, tail, multi, c);
      NothingLeft(tables, strict, names[1..]);
    } else {
      var behind := "+" + (NamesText(names[1..]) + tail);
      assert NamesText(names) + tail == name + behind && behind[1..] == NamesText(names[1..]) + tail;
      NameRead(tables, strict, name, behind, multi, c);
      var part := Part(tables, strict, name, false, c);
      if part.Some? {
        NamesRead(tables, strict, names[1..], tail, true, part.value);
      }
    }
  }

  lemma NothingLeft(tables: Tables, strict: bool, names: seq<string>)
    requires names == []
    ensures forall c: Criteria :: Resolve(tables, strict, names, true, c) == Some(c)
  {
  }

  lemma NamesTextStarts(names: seq<string>)
    requires ValidNames(names)
    ensures NamesText(names) != "" && NamesText(names)[0] == names[0][0]
  {
  }

  /** One rule with its operator. */
  lemma CommandScanned(tables: Tables, strict: bool, rule: Rule, names: seq<string>, tail: string, st: State)
    requires ValidNames(names) && !NameChar(Peek(tail, 0)) && Peek(tail, 0) != '+'
    requires st.text == OperatorText(rule) + NamesText(names) + tail
    requires st.inGroup ==> rule.Add? && Alnum(names[0][0])
    requires rule.Add? ==> names[0][0] != '-'
    ensures Step(tables, strict, st) ==
      if st.hasGroup && !rule.Add? then Stop(Rejected(MixedSpecialOperatorWithGroups))
      else match ApplyNames(tables, strict, rule, names, st.inGroup, st.list)
           case None => Stop(Rejected(InvalidCommand))
           case Some(l) => Next(st.(text := tail, list := l))
  {
    hide CipherRules.Apply, ReadParts, NamesText, SpecialCommand, Resolve, CloseGroup;
    NamesRead(tables, strict, names, tail, false, EVERYTHING);
    NamesTextStarts(names);
    assert NameChar(names[0][0]);
    var body := NamesText(names) + tail;
    assert st.text == OperatorText(rule) + body;
    assert !rule.Add? ==> st.text[1..] == body;
    assert rule.Add? ==> st.text == body;
  }

  lemma StrengthScanned(tables: Tables, strict: bool, tail: string, st: State)
    requires tail == "" || ItemSeparator(tail[0])
    requires st.text == "@STRENGTH" + tail && !st.inGroup
    ensures Step(tables, strict, st) ==
      if st.hasGroup then Stop(Rejected(MixedSpecialOperatorWithGroups))
        else Next(st.(text := tail, list := Sorting(st.list, 0)))
  {
    hide Sorting;
    var body := "STRENGTH" + tail;
    assert st.text[1..] == body;
    NameEnds("STRENGTH", tail);
    assert body[..8] == "STRENGTH" && body[8..] == tail;
  }

  lemma PunctuationScanned(tables: Tables, strict: bool, st: State)
    requires st.inGroup
    ensures Peek(st.text, 0) == '|' ==> Step(tables, strict, st) == Next(st.(text := st.text[1..]))
    ensures Peek(st.text, 0) == ']' ==>
      Step(tables, strict, st) == Next(State(st.text[1..], false, st.hasGroup, CloseGroup(st.list)))
  {
    hide CipherRules.Apply, ReadParts, Sorting, CloseGroup;
  }

  lemma GroupOpened(tables: Tables, strict: bool, st: State)
    requires !st.inGroup && Peek(st.text, 0) == '['
    ensures Step(tables, strict, st) == Next(State(st.text[1..], true, true, st.list))
  {
  }

  lemma EndScanned(tables: Tables, strict: bool, st: State)
    requires !st.inGroup && st.text == ""
    ensures Step(tables, strict, st) == Stop(Done(st.list)) && Run(tables, strict, st) == Done(st.list)
  {
  }

  /** A group up to its closing bracket. */
  lemma {:induction false} GroupScanned(tables: Tables, strict: bool, alternatives: seq<seq<string>>, tail: string,
        st: State)
    requires ValidItem(Group(alternatives)) && st.inGroup
    requires st.text == AlternativesText(alternatives) + tail
    ensures Run(tables, strict, st) ==
      match ApplyGroup(tables, strict, alternatives, st.list)
      case None => Rejected(InvalidCommand)
      case Some(l) => Run(tables, strict, State(tail, false, st.hasGroup, l))
    decreases |alternatives|
  {
    hide Step, NamesText, CloseGroup, ApplyNames;
    if alternatives == [] {
      assert st.text[1..] == tail;
      PunctuationScanned(tables, strict, st);
    } else {
      var names, others := alternatives[0], alternatives[1..];
      var behind := (if others == [] then "" else "|") + AlternativesText(others) + tail;
      assert st.text == OperatorText(Add) + NamesText(names) + behind;
      BehindAlternative(others, tail);
      CommandScanned(tables, strict, Add, names, behind, st);
      match ApplyNames(tables, strict, Add, names, true, st.list)
      case None =>
      case Some(l) =>
        var next := st.(text := behind, list := l);
        var after := next.(text := AlternativesText(others) + tail);
        if others == [] {
          assert behind == after.text;
        } else {
          assert behind == "|" + after.text && behind[1..] == after.text;
          PunctuationScanned(tables, strict, next);
        }
        GroupScanned(tables, strict, others, tail, after);
    }
  }

  lemma BehindAlternative(others: seq<seq<string>>, tail: string)
    ensures var behind := (if others == [] then "" else "|") + AlternativesText(others) + tail;
            behind != "" && behind[0] == if others == [] then ']' else '|'
  {
  }

  /** One item of a rule string, with what comes behind it. */
  lemma ItemScanned(tables: Tables, strict: bool, item: Item, tail: string, st: State)
    requires ValidItem(item) && !st.inGroup && st.text == ItemText(item) + tail
    requires tail == "" || ItemSeparator(tail[0])
    ensures Run(tables, strict, st) ==
      match ItemMeaning(tables, strict, item, st.hasGroup, st.list)
      case Rejected(e) => Rejected(e)
      case Done(l) => Run(tables, strict, State(tail, false, st.hasGroup || item.Group?, l))
  {
    hide Step, NamesText, AlternativesText, ApplyNames, ApplyGroup, ValidNames, Sorting;
    match item
    case Command(rule, names) => CommandScanned(tables, strict, rule, names, tail, st);
    case Strength => StrengthScanned(tables, strict, tail, st);
    case Group(alternatives) =>
      var open := State(AlternativesText(alternatives) + tail, true, true, st.list);
      assert st.text[1..] == open.text;
      GroupOpened(tables, strict, st);
      GroupScanned(tables, strict, alternatives, tail, open);
  }

  /** The scanner gives every phrase of the grammar its meaning, whatever the tables,
      the list and the strictness. */
  lemma {:induction false} ScannerMeaning(tables: Tables, strict: bool, items: seq<Item>, hasGroup: bool,
        list: seq<Entry>)
    requires forall i | 0 <= i < |items| :: ValidItem(items[i])
    ensures Run(tables, strict, State(Text(items), false, hasGroup, list))
        == Meaning(tables, strict, items, hasGroup, list)
    decreases |items|
  {
    hide Run, ItemText, ItemMeaning, ValidItem;
    if items == [] {
      EndScanned(tables, strict, State("", false, hasGroup, list));
    } else {
      var item, rest := items[0], items[1..];
      var tail := if rest == [] then "" else ":" + Text(rest);
      assert Text(items) == ItemText(item) + tail;
      ItemScanned(tables, strict, item, tail, State(Text(items), false, hasGroup, list));
      var o := ItemMeaning(tables, strict, item, hasGroup, list);
      if o.Done? {
        AfterItem(tables, strict, rest, hasGroup || item.Group?, o.list);
        ScannerMeaning(tables, strict, rest, hasGroup || item.Group?, o.list);
      }
    }
  }

  /** The separator between two items. */
  lemma AfterItem(tables: Tables, strict: bool, rest: seq<Item>, hasGroup: bool, list: seq<Entry>)
    ensures var tail := if rest == [] then "" else ":" + Text(rest);
            Run(tables, strict, State(tail, false, hasGroup, list))
              == Run(tables, strict, State(Text(rest), false, hasGroup, list))
  {
    hide CipherRules.Apply, ReadParts, Text, Sorting, Resolve, CloseGroup;
    var tail := if rest == [] then "" else ":" + Text(rest);
    if rest == [] {
      assert Text(rest) == "" by {
        EmptyText(rest);
      }
    } else {
      assert tail[1..] == Text(rest);
      assert Step(tables, strict, State(tail, false, hasGroup, list)) == Next(State(Text(rest), false, hasGroup, list));
    }
  }

  lemma EmptyText(items: seq<Item>)
    requires items == []
    ensures Text(items) == ""
  {
  }
}
