/** The scanner of rule strings at work on the linked list. */
module CipherListBuilder {
  import opened Bytes
  import opened CipherRules
  import opened CipherStrength
  import opened CipherScanner
  import opened CipherPreferences
  import opened CipherList

  /** The scan over the characters of a name. */
  method ScanName(text: string, l: nat) returns (n: nat)
    requires l <= |text|
    ensures n == NameLength(text[l..]) && l + n <= |text|
  {
    n := 0;
    while NameChar(Peek(text, l + n))
      invariant l + n <= |text|
      invariant NameLength(text[l..]) == n + NameLength(text[l + n..])
      decreases |text| - n
    {
      assert text[l + n..][1..] == text[l + n + 1..];
      n := n + 1;
    }
  }

  method FindCipher(ciphers: seq<CipherInfo>, name: string) returns (id: nat)
    ensures id == CipherNamed(ciphers, name)
  {
    id := 0;
    var j := 0;
    while j < |ciphers|
      invariant 0 <= j <= |ciphers| && id == 0
      invariant CipherNamed(ciphers, name) == CipherNamed(ciphers[j..], name)
    {
      if ciphers[j].name == name {
        id := ciphers[j].id;
        break;
      }
      assert ciphers[j..][1..] == ciphers[j + 1..];
      j := j + 1;
    }
  }

  method FindAlias(aliases: seq<Alias>, name: string) returns (a: Option<Alias>)
    ensures a == AliasNamed(aliases, name)
  {
    a := None;
    var j := 0;
    while j < |aliases|
      invariant 0 <= j <= |aliases| && a == None
      invariant AliasNamed(aliases, name) == AliasNamed(aliases[j..], name)
    {
      if aliases[j].name == name {
        a := Some(aliases[j]);
        break;
      }
      assert aliases[j..][1..] == aliases[j + 1..];
      j := j + 1;
    }
  }

  /** Looks one name up and narrows the criteria. */
  method TakeName(tables: Tables, strict: bool, name: string, alone: bool, c: Criteria) returns (ok: bool, d: Criteria)
    requires c.cipherId == 0
    ensures Part(tables, strict, name, alone, c) == if ok then Some(d) else None
    ensures ok && !alone ==> d.cipherId == 0
  {
    hide CipherNamed, AliasNamed, Both;
    d := c;
    if alone {
      var id := FindCipher(tables.ciphers, name);
      d := c.(cipherId := id);
    }
    if d.cipherId == 0 {
      var a := FindAlias(tables.aliases, name);
      if a.None? {
        return !strict, d.(skip := true);
      }
      d := d.Narrow(a.value);
    }
    return true, d;
  }

  /** One name of a rule, by position. */
  lemma ReadPartsAt(tables: Tables, strict: bool, text: string, l: nat, multi: bool, c: Criteria)
    requires l <= |text|
    ensures var n := NameLength(text[l..]);
            var more := Peek(text, l + n) == '+';
            l + n <= |text| && ReadParts(tables, strict, text[l..], multi, c) ==
              if n == 0 then BadParts
              else match Part(tables, strict, text[l..l + n], !multi && !more, c)
                   case None => BadParts
                   case Some(d) =>
                     if more then ReadParts(tables, strict, text[l + n + 1..], true, d) else Parts(d, text[l + n..])
  {
    hide NameLength, Part;
    var n := NameLength(text[l..]);
    assert text[l..][..n] == text[l..l + n] && text[l..][n..] == text[l + n..];
    if Peek(text, l + n) == '+' {
      assert text[l..][n + 1..] == text[l + n + 1..];
    }
  }

  /** The loop over the names of one rule. */
  method ReadRule(tables: Tables, strict: bool, text: string, start: nat) returns (ok: bool, c: Criteria, l: nat)
    requires start <= |text|
    ensures start <= l <= |text|
    ensures ReadParts(tables, strict, text[start..], false, EVERYTHING) == if ok then Parts(c, text[l..]) else BadParts
  {
    hide NameLength, Part, ReadParts;
    var multi := false;
    c, l := EVERYTHING, start;
    while true
      invariant start <= l <= |text| && c.cipherId == 0
      invariant ReadParts(tables, strict, text[start..], false, EVERYTHING)
          == ReadParts(tables, strict, text[l..], multi, c)
      decreases |text| - l
    {
      var n := ScanName(text, l);
      ReadPartsAt(tables, strict, text, l, multi, c);
      if n == 0 {
        return false, c, l;
      }
      var name, more := text[l..l + n], Peek(text, l + n) == '+';
      ok, c := TakeName(tables, strict, name, !multi && !more, c);
      l := l + n;
      if !ok || !more {
        return;
      }
      l := l + 1;
      multi := true;
    }
  }

  /** The rest of a special command is thrown away. */
  method SkipCommand(text: string, start: nat) returns (l: nat)
    requires start <= |text|
    ensures start <= l <= |text| && text[l..] == AfterCommand(text[start..])
  {
    l := start;
    while Peek(text, l) != '\0' && !ItemSeparator(text[l])
      invariant start <= l <= |text|
      invariant AfterCommand(text[start..]) == AfterCommand(text[l..])
      decreases |text| - l
    {
      assert text[l..][1..] == text[l + 1..];
      l := l + 1;
    }
  }

  /** A command that begins with '@': only sorting by strength is one. */
  method ProcessSpecial(order: CipherOrderList, text: string, start: nat) returns (ok: bool, l: nat)
    requires order.Valid() && start <= |text|
    modifies order, order.Nodes()
    ensures order.Valid() && forall n | n in order.nodes :: n in old(order.nodes)
    ensures start <= l <= |text|
    ensures forall st: State | st.list == old(order.Contents()) ::
      SpecialCommand(text[start..], st) ==
        if ok then Next(st.(text := text[l..], list := order.Contents())) else Stop(Rejected(InvalidCommand))
  {
    hide NameLength, Sorting, AfterCommand, Linked, Entries;
    var n := ScanName(text, start);
    assert text[start..][..n] == text[start..start + n] && text[start..][n..] == text[start + n..];
    ok := text[start..start + n] == "STRENGTH";
    l := start;
    if ok {
      order.StrengthSort();
      l := SkipCommand(text, start + n);
    }
  }

  /** One turn of the loop of `ssl_cipher_process_rulestr` behind the group brackets:
      reads an operator and what it applies to. */
  method ProcessRule(order: CipherOrderList, tables: Tables, strict: bool, text: string, start: nat, inGroup: bool,
        hasGroup: bool)
    returns (error: Option<RuleError>, l: nat)
    requires order.Valid() && start < |text| && text[start] != '\0' && (inGroup ==> Alnum(text[start]))
        && (!inGroup ==> text[start] != '[')
    modifies order, order.Nodes()
    ensures order.Valid() && forall n | n in order.nodes :: n in old(order.nodes)
    ensures start <= l <= |text|
    ensures Step(tables, strict, State(text[start..], inGroup, hasGroup, old(order.Contents()))) ==
      match error
      case Some(e) => Stop(Rejected(e))
      case None => Next(State(text[l..], inGroup, hasGroup, order.Contents()))
  {
    hide CipherRules.Apply, ReadParts, SpecialCommand, Linked, Entries, CloseGroup, Criteria.Selects;
    ghost var st := State(text[start..], inGroup, hasGroup, order.Contents());
    var ch := text[start];
    var op := ReadOperator(text[start..start + 1]).0;
    assert ReadOperator(st.text).0 == op;
    l := if op == Operator.Apply(Add) then start else start + 1;
    assert ReadOperator(st.text).1 == text[l..];
    if hasGroup && op != Operator.Apply(Add) {
      return Some(MixedSpecialOperatorWithGroups), l;
    }
    if ItemSeparator(ch) {
      l := l + 1;
      return None, l;
    }
    match op
    case Special =>
      var ok, m := ProcessSpecial(order, text, l);
      return if ok then None else Some(InvalidCommand), m;
    case Apply(rule) =>
      var ok, c, m := ReadRule(tables, strict, text, l);
      if !ok {
        return Some(InvalidCommand), l;
      }
      l := m;
      if !c.skip {
        order.ApplyRule(c.Selects(), rule, inGroup);
      }
      return None, l;
  }

  /** The end of a group. */
  method EndGroup(order: CipherOrderList)
    requires order.Valid()
    modifies order.Nodes()
    ensures order.Valid() && order.nodes == old(order.nodes)
    ensures order.Contents() == CloseGroup(old(order.Contents()))
  {
    if order.tail != null {
      order.tail.inGroup := false;
    }
  }

  /** `ssl_cipher_process_rulestr` */
  method ProcessRuleString(order: CipherOrderList, tables: Tables, strict: bool, text: string)
    returns (error: Option<RuleError>)
    requires order.Valid()
    modifies order, order.Nodes()
    ensures order.Valid() && forall n | n in order.nodes :: n in old(order.nodes)
    ensures match error
            case Some(e) => Run(tables, strict, State(text, false, false, old(order.Contents()))) == Rejected(e)
            case None => Run(tables, strict, State(text, false, false, old(order.Contents()))) == Done(order.Contents())
  {
    hide Linked, Entries, CloseGroup, SpecialCommand, RuleCommand;
    var l, inGroup, hasGroup := 0, false, false;
    ghost var s, o := order.nodes, Run(tables, strict, State(text, false, false, order.Contents()));
    assert text[0..] == text;
    while true
      invariant 0 <= l <= |text| && order.Valid() && forall n | n in order.nodes :: n in s
      invariant Run(tables, strict, State(text[l..], inGroup, hasGroup, order.Contents())) == o
      decreases |text| - l
    {
      var ch := Peek(text, l);
      if ch == '\0' {
        break;
      }
      assert text[l..][1..] == text[l + 1..];
      if inGroup && ch == ']' {
        EndGroup(order);
        inGroup := false;
        l := l + 1;
      } else if inGroup && ch == '|' {
        l := l + 1;
      } else if inGroup && !Alnum(ch) {
        return Some(UnexpectedOperatorInGroup);
      } else if !inGroup && ch == '[' {
        inGroup, hasGroup := true, true;
        l := l + 1;
      } else {
        ghost var st := State(text[l..], inGroup, hasGroup, order.Contents());
        StepConsumes(tables, strict, st);
        var m;
        error, m := ProcessRule(order, tables, strict, text, l, inGroup, hasGroup);
        if error.Some? {
          return;
        }
        l := m;
      }
    }
    return if inGroup then Some(InvalidCommand) else None;
  }

  /** `ssl_cipher_collect_ciphers`: allocates a node for every supported cipher and links
      the nodes in the order of the table. */
  method Collect(ciphers: seq<CipherInfo>, supports: CipherInfo -> bool) returns (order: CipherOrderList)
    ensures fresh(order) && fresh(order.Nodes()) && order.Valid()
    ensures order.Contents() == Collected(ciphers, supports)
  {
    var nodes := Allocate(ciphers, supports);
    var i := 0;
    while i < |nodes|
      invariant 0 <= i <= |nodes|
      invariant forall k {:trigger nodes[k].next} | 0 <= k < i :: nodes[k].next == At(nodes, k + 1)
      invariant forall k {:trigger nodes[k].prev} | 0 <= k < i :: nodes[k].prev == At(nodes, k - 1)
      invariant forall k | 0 <= k < |nodes| :: nodes[k].Abs() == Entry(nodes[k].cipher, false, false)
    {
      nodes[i].prev := if i == 0 then null else nodes[i - 1];
      nodes[i].next := if i == |nodes| - 1 then null else nodes[i + 1];
      i := i + 1;
    }
    order := new CipherOrderList(
      if nodes == [] then null else nodes[0], if nodes == [] then null else nodes[|nodes| - 1], nodes);
    SameEntries(nodes, Collected(ciphers, supports));
  }

  lemma SameEntries(nodes: seq<CipherOrder>, list: seq<Entry>)
    requires |nodes| == |list| && forall k | 0 <= k < |nodes| :: nodes[k].Abs() == list[k]
    ensures Entries(nodes) == list
  {
  }

  method Allocate(ciphers: seq<CipherInfo>, supports: CipherInfo -> bool) returns (nodes: seq<CipherOrder>)
    ensures fresh(set n | n in nodes) && Distinct(nodes)
    ensures |nodes| == |Collected(ciphers, supports)|
    ensures forall k | 0 <= k < |nodes| :: Entry(nodes[k].cipher, false, false) == Collected(ciphers, supports)[k]
    ensures forall k | 0 <= k < |nodes| :: !nodes[k].active && !nodes[k].inGroup
  {
    hide Collected, Distinct;
    nodes := [];
    var i := 0;
    ghost var done: seq<Entry> := [];
    CollectedAt(ciphers, supports, 0);
    NoNodes();
    while i < |ciphers|
      invariant 0 <= i <= |ciphers| && |done| == |nodes|
      invariant Collected(ciphers[..i], supports) == done
      invariant forall k | 0 <= k < |nodes| :: fresh(nodes[k]) && !nodes[k].active && !nodes[k].inGroup
      invariant forall k | 0 <= k < |nodes| :: Entry(nodes[k].cipher, false, false) == done[k]
      invariant Distinct(nodes)
    {
      CollectedAt(ciphers, supports, i);
      var cipher := ciphers[i];
      if supports(cipher) && cipher.mkey != K_GENERIC {
        var node := new CipherOrder(cipher);
        OneNodeMore(nodes, node);
        nodes := nodes + [node];
        done := done + [Entry(cipher, false, false)];
      }
      i := i + 1;
    }
    assert ciphers[..i] == ciphers;
  }

  lemma NoNodes()
    ensures Distinct([])
  {
  }

  lemma OneNodeMore(nodes: seq<CipherOrder>, node: CipherOrder)
    requires Distinct(nodes) && node !in nodes
    ensures Distinct(nodes + [node])
  {
  }

  /** The table up to an index. */
  lemma {:induction false} CollectedAt(ciphers: seq<CipherInfo>, supports: CipherInfo -> bool, i: nat)
    requires i <= |ciphers|
    ensures i == 0 ==> Collected(ciphers[..i], supports) == []
    ensures i < |ciphers| ==>
      Collected(ciphers[..i + 1], supports) == Collected(ciphers[..i], supports) +
        if supports(ciphers[i]) && ciphers[i].mkey != K_GENERIC then [Entry(ciphers[i], false, false)] else []
  {
    if 0 < i < |ciphers| {
      CollectedAt(ciphers[1..], supports, i - 1);
      assert ciphers[..i][1..] == ciphers[1..][..i - 1] && ciphers[..i + 1][1..] == ciphers[1..][..i];
    }
  }

  lemma EmptyRules(tables: Tables, strict: bool, list: seq<Entry>)
    ensures Run(tables, strict, State("", false, false, list)) == Done(list)
  {
  }

  /** The walk that copies the active ciphers out of the list. */
  method TakeActive(order: CipherOrderList) returns (p: Preferences)
    requires order.Valid()
    ensures p == Active(order.Contents())
  {
    hide Distinct;
    ghost var list, i := order.Contents(), 0;
    var curr := order.head;
    p := Preferences([], []);
    while curr != null
      invariant 0 <= i <= |list| && curr == At(order.nodes, i)
      invariant var rest := Active(list[i..]);
                Active(list) == Preferences(p.ciphers + rest.ciphers, p.inGroup + rest.inGroup)
      decreases |list| - i
    {
      assert list[i..][1..] == list[i + 1..] && list[i] == curr.Abs();
      if curr.active {
        p := Preferences(p.ciphers + [curr.cipher], p.inGroup + [curr.inGroup]);
      }
      curr := curr.next;
      i := i + 1;
    }
    assert list[i..] == [];
  }

  /** The rules that are applied before the rule string is looked at. */
  method ArrangeByDefault(order: CipherOrderList, aesHardware: bool)
    requires order.Valid()
    modifies order, order.Nodes()
    ensures order.Valid() && forall n | n in order.nodes :: n in old(order.nodes)
    ensures order.Contents() == ApplyAll(DefaultOrder(aesHardware), old(order.Contents()))
  {
    hide CipherRules.Apply, Linked, Entries, DefaultOrder;
    ghost var s, all := order.nodes, order.Contents();
    var orders := DefaultOrder(aesHardware);
    ghost var goal := ApplyAll(orders, all);
    while orders != []
      invariant order.Valid() && forall n | n in order.nodes :: n in s
      invariant ApplyAll(orders, order.Contents()) == goal
      decreases |orders|
    {
      order.ApplyRule(orders[0].Selects(), orders[0].rule, false);
      orders := orders[1..];
    }
  }

  /** The default rules, if the rule string asks for them, and then the rule string. */
  method ProcessAllRules(order: CipherOrderList, tables: Tables, strict: bool, rules: string) returns (ok: bool)
    requires order.Valid()
    modifies order, order.Nodes()
    ensures order.Valid()
    ensures var o := ProcessRules(tables, strict, rules, old(order.Contents()));
            if ok then o == Done(order.Contents()) else o.Rejected?
  {
    hide Run, Linked, Entries;
    var rest := rules;
    if BeginsWithDefault(rules) {
      var error := ProcessRuleString(order, tables, strict, DEFAULT_RULES);
      if error.Some? {
        return false;
      }
      rest := AfterDefault(rules);
    }
    if rest == "" {
      EmptyRules(tables, strict, order.Contents());
      return true;
    }
    var error := ProcessRuleString(order, tables, strict, rest);
    return error.None?;
  }

  /** `ssl_create_cipher_list`: the list of preferences, and whether it may be used. An
      empty list is an error, but it is put in place all the same. */
  method CreateCipherList(tables: Tables, supports: CipherInfo -> bool, aesHardware: bool, rules: string, strict: bool)
    returns (ok: bool, preferences: Option<Preferences>)
    ensures preferences == Create(tables, supports, aesHardware, rules, strict)
    ensures ok <==> preferences.Some? && preferences.value.ciphers != []
  {
    hide ProcessRules, ApplyAll, Linked, Entries, Collected, DefaultOrder;
    var order := Collect(tables.ciphers, supports);
    ArrangeByDefault(order, aesHardware);
    ok := ProcessAllRules(order, tables, strict, rules);
    if !ok {
      return false, None;
    }
    var p := TakeActive(order);
    return p.ciphers != [], Some(p);
  }
}
