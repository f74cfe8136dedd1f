/** The list of preferences made from the cipher table and a rule string. */
module CipherPreferences {
  import opened Bytes
  import opened CipherRules
  import opened CipherScanner
  import opened CipherListShape
  import opened CipherFate

  const K_RSA: bv32 := 0x1
  const K_ECDHE: bv32 := 0x2
  const K_PSK: bv32 := 0x4
  const K_GENERIC: bv32 := 0x8
  const A_ECDSA: bv32 := 0x2
  const E_3DES: bv32 := 0x1
  const E_AES128: bv32 := 0x2
  const E_AES256: bv32 := 0x4
  const E_AES128_GCM: bv32 := 0x8
  const E_AES256_GCM: bv32 := 0x10
  const E_CHACHA20_POLY1305: bv32 := 0x40
  const ALL_ONES: bv32 := 0xffff_ffff

  const DEFAULT_RULES := "ALL"

  /** struct ssl_cipher_preference_list_st */
  datatype Preferences = Preferences(ciphers: seq<CipherInfo>, inGroup: seq<bool>)

  /** The ciphers a protocol method supports; those of TLS 1.3 are not listed. */
  function Collected(ciphers: seq<CipherInfo>, supports: CipherInfo -> bool): (list: seq<Entry>)
  {
    if ciphers == [] then []
    else
      (if supports(ciphers[0]) && ciphers[0].mkey != K_GENERIC then [Entry(ciphers[0], false, false)] else [])
      + Collected(ciphers[1..], supports)
  }

  datatype Order = Order(rule: Rule, mkey: bv32, auth: bv32, enc: bv32) {
    function Selects(): Selector {
      Selector(0, mkey, auth, enc, ALL_ONES, 0, -1)
    }
  }

  /** The rules that put the ciphers in their order before the rule string is looked at. */
  function DefaultOrder(aesHardware: bool): seq<Order> {
    var chacha := Order(Add, ALL_ONES, ALL_ONES, E_CHACHA20_POLY1305);
    var gcm := [Order(Add, ALL_ONES, ALL_ONES, E_AES128_GCM), Order(Add, ALL_ONES, ALL_ONES, E_AES256_GCM)];
    [Order(Add, K_ECDHE, A_ECDSA, ALL_ONES), Order(Add, K_ECDHE, ALL_ONES, ALL_ONES),
     Order(Del, ALL_ONES, ALL_ONES, ALL_ONES)]
    + (if aesHardware then gcm + [chacha] else [chacha] + gcm)
    + [Order(Add, ALL_ONES, ALL_ONES, E_AES128), Order(Add, ALL_ONES, ALL_ONES, E_AES256),
       Order(Add, ALL_ONES, ALL_ONES, E_3DES), Order(Add, ALL_ONES, ALL_ONES, ALL_ONES),
       Order(Ord, K_RSA | K_PSK, ALL_ONES, ALL_ONES), Order(Del, ALL_ONES, ALL_ONES, ALL_ONES)]
  }

  ghost function ApplyAll(orders: seq<Order>, list: seq<Entry>): (r: seq<Entry>)
    decreases |orders|
  {
    if orders == [] then list
    else ApplyAll(orders[1..], CipherRules.Apply(orders[0].rule, orders[0].Selects(), false, list))
  }

  /** The rest of a rule string that begins with DEFAULT. */
  function AfterDefault(rules: string): (rest: string)
    requires |rules| >= 7
  {
    if Peek(rules, 7) == ':' then rules[8..] else rules[7..]
  }

  predicate BeginsWithDefault(rules: string) {
    |rules| >= 7 && rules[..7] == "DEFAULT"
  }

  ghost function ProcessRules(tables: Tables, strict: bool, rules: string, list: seq<Entry>): Outcome {
    if BeginsWithDefault(rules) then
      match Run(tables, strict, State(DEFAULT_RULES, false, false, list))
      case Rejected(e) => Rejected(e)
      case Done(l) => Run(tables, strict, State(AfterDefault(rules), false, false, l))
    else Run(tables, strict, State(rules, false, false, list))
  }

  /** The active ciphers with their group flags. */
  function Active(list: seq<Entry>): (p: Preferences)
    ensures |p.ciphers| == |p.inGroup|
  {
    if list == [] then Preferences([], [])
    else
      var p := Active(list[1..]);
      if list[0].active then Preferences([list[0].cipher] + p.ciphers, [list[0].inGroup] + p.inGroup) else p
  }

  /** `ssl_create_cipher_list` */
  ghost function Create(tables: Tables, supports: CipherInfo -> bool, aesHardware: bool, rules: string, strict: bool)
    : Option<Preferences>
  {
    match ProcessRules(tables, strict, rules, ApplyAll(DefaultOrder(aesHardware), Collected(tables.ciphers, supports)))
    case Rejected(_) => None
    case Done(list) => Some(Active(list))
  }

  ghost predicate Fresh(list: seq<Entry>) {
    ActiveLast(list) && NoDuplicates(list) && NoGroups(list)
  }

  lemma FreshIsGood(text: string, list: seq<Entry>)
    requires Fresh(list)
    ensures Good(State(text, false, false, list))
  {
  }

  ghost predicate DistinctCiphers(ciphers: seq<CipherInfo>) {
    forall i, j | 0 <= i < j < |ciphers| :: ciphers[i] != ciphers[j]
  }

  lemma {:induction false} CollectedMembers(ciphers: seq<CipherInfo>, supports: CipherInfo -> bool)
    ensures forall e | e in Collected(ciphers, supports) ::
      e.cipher in ciphers && supports(e.cipher) && e.cipher.mkey != K_GENERIC
  {
    if ciphers != [] {
      CollectedMembers(ciphers[1..], supports);
    }
  }

  lemma {:induction false} CollectedIsFresh(ciphers: seq<CipherInfo>, supports: CipherInfo -> bool)
    requires DistinctCiphers(ciphers)
    ensures Fresh(Collected(ciphers, supports))
  {
    if ciphers != [] {
      var rest := Collected(ciphers[1..], supports);
      CollectedIsFresh(ciphers[1..], supports);
      CollectedMembers(ciphers[1..], supports);
      forall k | 0 <= k < |rest|
        ensures rest[k].cipher != ciphers[0]
      {
        assert rest[k] in rest;
      }
    }
  }

  lemma {:induction false} ApplyAllKeepsFresh(orders: seq<Order>, list: seq<Entry>)
    requires Fresh(list)
    ensures Fresh(ApplyAll(orders, list))
    ensures forall c :: Listed(c, ApplyAll(orders, list)) ==> Listed(c, list)
    decreases |orders|
  {
    hide CipherRules.Apply, ActiveLast, NoDuplicates, Listed;
    if orders != [] {
      var r := CipherRules.Apply(orders[0].rule, orders[0].Selects(), false, list);
      ApplyKeepsOrder(orders[0].rule, orders[0].Selects(), false, list);
      ApplyKeepsFlags(orders[0].rule, orders[0].Selects(), false, list);
      forall c
        ensures Listed(c, r) ==> Listed(c, list)
      {
        ApplyCiphers(orders[0].rule, orders[0].Selects(), false, list, c);
      }
      ApplyAllKeepsFresh(orders[1..], r);
    }
  }

  lemma ProcessRulesKeepsOrder(tables: Tables, strict: bool, rules: string, list: seq<Entry>)
    requires Fresh(list)
    ensures var o := ProcessRules(tables, strict, rules, list);
            o.Done? ==> Orderly(o.list) && GroupsClosed(o.list) && forall c :: Listed(c, o.list) ==> Listed(c, list)
  {
    hide Run, Good, ActiveLast, NoDuplicates, NoGroups, InactiveUngrouped, GroupsClosed, Listed;
    var start := list;
    if BeginsWithDefault(rules) {
      var st := State(DEFAULT_RULES, false, false, list);
      FreshIsGood(DEFAULT_RULES, list);
      RunKeepsGood(tables, strict, st);
      NoGroupsWithoutBracket(tables, strict, st);
      var o := Run(tables, strict, st);
      if o.Rejected? {
        return;
      }
      start := o.list;
      forall c
        ensures Listed(c, start) ==> Listed(c, list)
      {
        RunOnlyForgets(tables, strict, st, c);
      }
    }
    var st := State(if BeginsWithDefault(rules) then AfterDefault(rules) else rules, false, false, start);
    FreshIsGood(st.text, start);
    RunKeepsGood(tables, strict, st);
    var o := Run(tables, strict, st);
    if o.Done? {
      forall c
        ensures Listed(c, o.list) ==> Listed(c, start)
      {
        RunOnlyForgets(tables, strict, st, c);
      }
    }
  }

  lemma {:induction false} ActiveCiphers(list: seq<Entry>)
    requires NoDuplicates(list)
    ensures DistinctCiphers(Active(list).ciphers)
    ensures forall c | c in Active(list).ciphers :: Listed(c, list)
  {
    if list != [] {
      ActiveCiphers(list[1..]);
      var p := Active(list[1..]);
      assert list[0] in list;
      forall c | c in p.ciphers
        ensures c != list[0].cipher && Listed(c, list)
      {
        var e :| e in list[1..] && e.cipher == c;
        var k :| 0 <= k < |list[1..]| && list[1..][k] == e;
        assert list[k + 1] == e;
      }
      forall j | 0 <= j < |p.ciphers|
        ensures p.ciphers[j] != list[0].cipher
      {
        assert p.ciphers[j] in p.ciphers;
      }
    }
  }

  /** The last active cipher closes the last group. */
  lemma {:induction false} ActiveClosed(list: seq<Entry>)
    requires ActiveLast(list) && GroupsClosed(list)
    ensures var p := Active(list); p.inGroup != [] ==> !p.inGroup[|p.inGroup| - 1]
  {
    if list != [] {
      ActiveClosed(list[1..]);
      if list[1..] != [] && list[0].active {
        assert list[|list| - 1].active;
        ActiveHas(list[1..]);
      }
    }
  }

  lemma ActiveHas(list: seq<Entry>)
    requires list != [] && list[|list| - 1].active
    ensures Active(list).ciphers != []
  {
  }

  /** A list of preferences that has been configured successfully: no cipher twice, only
      ciphers of the table that the protocol method supports, and every group closed. */
  lemma CreatedPreferences(tables: Tables, supports: CipherInfo -> bool, aesHardware: bool, rules: string, strict: bool)
    requires DistinctCiphers(tables.ciphers)
    ensures var r := Create(tables, supports, aesHardware, rules, strict);
            r.Some? ==>
              var p := r.value;
              && |p.ciphers| == |p.inGroup| && DistinctCiphers(p.ciphers)
              && (forall c | c in p.ciphers :: c in tables.ciphers && supports(c) && c.mkey != K_GENERIC)
              && (p.inGroup != [] ==> !p.inGroup[|p.inGroup| - 1])
  {
    hide Run, Listed, DistinctCiphers, ActiveLast, NoDuplicates, NoGroups, GroupsClosed, InactiveUngrouped;
    hide ProcessRules, ApplyAll, DefaultOrder;
    var all := Collected(tables.ciphers, supports);
    var start := ApplyAll(DefaultOrder(aesHardware), all);
    CollectedIsFresh(tables.ciphers, supports);
    CollectedMembers(tables.ciphers, supports);
    ApplyAllKeepsFresh(DefaultOrder(aesHardware), all);
    ProcessRulesKeepsOrder(tables, strict, rules, start);
    var o := ProcessRules(tables, strict, rules, start);
    if o.Done? {
      ActiveCiphers(o.list);
      ActiveClosed(o.list);
      forall c | c in Active(o.list).ciphers
        ensures c in tables.ciphers && supports(c) && c.mkey != K_GENERIC
      {
        assert Listed(c, all);
        ListedHas(c, all);
      }
    }
  }

  lemma ListedHas(c: CipherInfo, list: seq<Entry>)
    ensures Listed(c, list) <==> exists e :: e in list && e.cipher == c
  {
  }
}
