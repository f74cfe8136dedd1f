/** What the rules applied before every rule string promise: ciphers without forward secrecy
    come last. */
module CipherDefaultOrder {
  import opened Bytes
  import opened CipherRules
  import opened CipherListShape
  import opened CipherPreferences

  /** Does the cipher's key exchange lack forward secrecy? */
  predicate Static(e: Entry) {
    Meets(K_RSA | K_PSK, e.cipher.mkey)
  }

  ghost predicate StaticLast(list: seq<Entry>) {
    forall i, j | 0 <= i < j < |list| :: Static(list[i]) ==> Static(list[j])
  }

  /** Every cipher has an algorithm of each kind. */
  predicate Complete(c: CipherInfo) {
    c.mkey != 0 && c.auth != 0 && c.enc != 0 && c.mac != 0
  }

  ghost predicate AllComplete(list: seq<Entry>) {
    forall i | 0 <= i < |list| :: Complete(list[i].cipher)
  }

  ghost predicate AllActive(list: seq<Entry>) {
    forall i | 0 <= i < |list| :: list[i].active
  }

  lemma AllOnesMeets(c: CipherInfo)
    requires Complete(c)
    ensures Meets(ALL_ONES, c.mkey) && Meets(ALL_ONES, c.auth) && Meets(ALL_ONES, c.enc) && Meets(ALL_ONES, c.mac)
  {
  }

  const EVERYTHING: Order := Order(Add, ALL_ONES, ALL_ONES, ALL_ONES)
  const STATIC: Order := Order(Ord, K_RSA | K_PSK, ALL_ONES, ALL_ONES)
  const NOTHING: Order := Order(Del, ALL_ONES, ALL_ONES, ALL_ONES)

  ghost function Do(o: Order, list: seq<Entry>): seq<Entry> {
    CipherRules.Apply(o.rule, o.Selects(), false, list)
  }

  /** Rules keep every cipher whole. */
  lemma DoKeepsComplete(o: Order, list: seq<Entry>)
    requires AllComplete(list)
    ensures AllComplete(Do(o, list))
  {
    hide CipherRules.Apply, Complete;
    var r := Do(o, list);
    forall i: nat | i < |r|
      ensures Complete(r[i].cipher)
    {
      var k := Origin(o.rule, o.Selects(), false, list, i);
      ImageCipher(o.rule, o.Selects(), false, list[k]);
    }
  }

  lemma {:induction false} ApplyAllKeepsComplete(orders: seq<Order>, list: seq<Entry>)
    requires AllComplete(list)
    ensures AllComplete(ApplyAll(orders, list))
    decreases |orders|
  {
    if orders != [] {
      DoKeepsComplete(orders[0], list);
      ApplyAllKeepsComplete(orders[1..], Do(orders[0], list));
    }
  }

  lemma {:induction false} ApplyAllJoins(a: seq<Order>, b: seq<Order>, list: seq<Entry>)
    ensures ApplyAll(a + b, list) == ApplyAll(b, ApplyAll(a, list))
    decreases |a|
  {
    hide CipherRules.Apply;
    if a == [] {
      assert a + b == b;
    } else {
      assert (a + b)[1..] == a[1..] + b;
      ApplyAllJoins(a[1..], b, Do(a[0], list));
    }
  }

  /** Adding everything makes everything active. */
  lemma EverythingIsActive(list: seq<Entry>)
    requires AllComplete(list)
    ensures AllActive(Do(EVERYTHING, list))
  {
    hide CipherRules.Apply, Meets;
    var r := Do(EVERYTHING, list);
    forall i: nat | i < |r|
      ensures r[i].active
    {
      var k := Origin(Add, EVERYTHING.Selects(), false, list, i);
      AllOnesMeets(list[k].cipher);
    }
  }

  /** Moving the ciphers without forward secrecy to the end of a list that is all active. */
  lemma StaticMoved(list: seq<Entry>)
    requires AllComplete(list) && AllActive(list)
    ensures AllActive(Do(STATIC, list)) && StaticLast(Do(STATIC, list))
  {
    hide CipherRules.Apply, Meets;
    var r, sel := Do(STATIC, list), STATIC.Selects();
    forall i: nat | i < |r|
      ensures r[i].active
    {
      var k := Origin(Ord, sel, false, list, i);
    }
    forall i: nat, j: nat | i < j < |r|
      ensures Static(r[i]) ==> Static(r[j])
    {
      var k, l := Origins(Ord, sel, false, list, i, j);
      ImageCipher(Ord, sel, false, list[k]);
      ImageCipher(Ord, sel, false, list[l]);
      AllOnesMeets(list[k].cipher);
      AllOnesMeets(list[l].cipher);
    }
  }

  /** Deleting everything keeps the order. */
  lemma DisabledInOrder(list: seq<Entry>)
    requires AllComplete(list) && AllActive(list)
    ensures var r := Do(NOTHING, list);
            |r| == |list| && forall i | 0 <= i < |r| :: r[i] == Entry(list[i].cipher, false, false)
  {
    hide Meets;
    var h := Hits(Del, NOTHING.Selects(), list);
    forall i | 0 <= i < |list|
      ensures h[i]
    {
      AllOnesMeets(list[i].cipher);
    }
    SelectAll(list, h, true);
  }

  lemma {:induction false} CollectedComplete(ciphers: seq<CipherInfo>, supports: CipherInfo -> bool)
    requires forall c | c in ciphers :: Complete(c)
    ensures AllComplete(Collected(ciphers, supports))
  {
    hide Complete;
    CollectedMembers(ciphers, supports);
    var list := Collected(ciphers, supports);
    forall i | 0 <= i < |list|
      ensures Complete(list[i].cipher)
    {
      assert list[i] in list;
    }
  }

  lemma LastThree(aesHardware: bool) returns (first: seq<Order>)
    ensures DefaultOrder(aesHardware) == first + [EVERYTHING, STATIC, NOTHING]
  {
    first := DefaultOrder(aesHardware)[..9];
  }

  /** Before the rule string is looked at, with or without AES hardware: everything is
      disabled, and ciphers without forward secrecy come last. */
  lemma ForwardSecrecyFirst(ciphers: seq<CipherInfo>, supports: CipherInfo -> bool, aesHardware: bool)
    requires forall c | c in ciphers :: Complete(c)
    ensures var list := ApplyAll(DefaultOrder(aesHardware), Collected(ciphers, supports));
            StaticLast(list) && forall i | 0 <= i < |list| :: !list[i].active
  {
    hide CipherRules.Apply, DefaultOrder, Static, Collected, Meets, Complete;
    var all := Collected(ciphers, supports);
    CollectedComplete(ciphers, supports);
    var first := LastThree(aesHardware);
    ApplyAllJoins(first, [EVERYTHING, STATIC, NOTHING], all);
    var list := ApplyAll(first, all);
    ApplyAllKeepsComplete(first, all);
    LastThreeApply(list);
  }

  lemma LastThreeApply(list: seq<Entry>)
    requires AllComplete(list)
    ensures var r := ApplyAll([EVERYTHING, STATIC, NOTHING], list);
            StaticLast(r) && forall i | 0 <= i < |r| :: !r[i].active
  {
    hide CipherRules.Apply, Meets, Complete;
    var a := Do(EVERYTHING, list);
    var b := Do(STATIC, a);
    DoKeepsComplete(EVERYTHING, list);
    EverythingIsActive(list);
    DoKeepsComplete(STATIC, a);
    StaticMoved(a);
    DisabledInOrder(b);
    assert [EVERYTHING, STATIC, NOTHING][1..] == [STATIC, NOTHING] && [STATIC, NOTHING][1..] == [NOTHING]
        && [NOTHING][1..] == [];
    assert ApplyAll([NOTHING], b) == Do(NOTHING, b);
    assert ApplyAll([STATIC, NOTHING], a) == ApplyAll([NOTHING], b);
    var r := Do(NOTHING, b);
    forall i, j | 0 <= i < j < |r|
      ensures Static(r[i]) ==> Static(r[j])
    {
      assert r[i].cipher == b[i].cipher && r[j].cipher == b[j].cipher;
    }
  }
}
