/** The order of ciphers before any rule string: a sort of the table by forward secrecy, bulk
    cipher, key exchange and, last, place in the table. */
module CipherDefaultSort {
  import opened Bytes
  import opened CipherRules
  import opened CipherListShape
  import opened CipherPreferences
  import opened CipherDefaultOrder
  import opened CipherNames

  // ------------------------------------------------------------ the order, in the fields

  /** ECDHE with ECDSA, ECDHE with anything else, other key exchanges. */
  function KeyExchangeRank(c: CipherInfo): (n: nat) {
    if !Meets(0x2, c.mkey) then 2 else if Meets(0x2, c.auth) then 0 else 1
  }

  /** Authenticated encryption first, AES-GCM before ChaCha20 only with AES in hardware; then
      AES with 128 and with 256 bits, 3DES, and anything else. */
  function BulkRank(aesHardware: bool, c: CipherInfo): (n: nat) {
    if aesHardware && Meets(0x8, c.enc) then 0
    else if aesHardware && Meets(0x10, c.enc) then 1
    else if Meets(0x40, c.enc) then 2
    else if Meets(0x8, c.enc) then 3
    else if Meets(0x10, c.enc) then 4
    else if Meets(0x2, c.enc) then 5
    else if Meets(0x4, c.enc) then 6
    else if Meets(0x1, c.enc) then 7
    else 8
  }

  /** Key exchange with RSA or a shared key alone. */
  function StaticRank(c: CipherInfo): (n: nat) {
    if Meets(0x1, c.mkey) || Meets(0x4, c.mkey) then 1 else 0
  }

  type Ordering = (CipherInfo, CipherInfo) -> bool

  /** First by rank, then as before. */
  function By(rank: CipherInfo -> nat, before: Ordering): Ordering {
    (a: CipherInfo, b: CipherInfo) => rank(a) < rank(b) || (rank(a) == rank(b) && before(a, b))
  }

  ghost predicate Sorted(list: seq<Entry>, before: Ordering) {
    forall i, j | 0 <= i < j < |list| :: before(list[i].cipher, list[j].cipher)
  }

  ghost function InTable(ciphers: seq<CipherInfo>): (CipherInfo, CipherInfo) -> bool {
    (a: CipherInfo, b: CipherInfo) => exists i, j :: 0 <= i < j < |ciphers| && ciphers[i] == a && ciphers[j] == b
  }

  // ------------------------------------------------------------ adding class by class

  /** The place of the first order that selects the cipher. */
  function FirstMatch(orders: seq<Order>, c: CipherInfo): (n: nat)
    ensures n <= |orders|
  {
    if orders == [] || orders[0].Selects().Matches(c) then 0 else 1 + FirstMatch(orders[1..], c)
  }

  lemma {:induction false} WhereSorted(list: seq<Entry>, p: Entry -> bool, before: Ordering)
    requires Sorted(list, before)
    ensures Sorted(Where(list, p), before)
    ensures forall i | 0 <= i < |Where(list, p)| :: p(Where(list, p)[i]) && Where(list, p)[i] in list
  {
    if list != [] {
      var rest := list[1..];
      forall i, j | 0 <= i < j < |rest|
        ensures before(rest[i].cipher, rest[j].cipher)
      {
        assert rest[i] == list[i + 1] && rest[j] == list[j + 1];
      }
      WhereSorted(rest, p, before);
      var w := Where(rest, p);
      forall j | 0 <= j < |w|
        ensures before(list[0].cipher, w[j].cipher) && w[j] in list
      {
        var k :| 0 <= k < |rest| && rest[k] == w[j];
        assert list[k + 1] == w[j];
      }
    }
  }

  ghost function Matched(orders: seq<Order>, list: seq<Entry>): (m: seq<Entry>)
    decreases |orders|
  {
    if orders == [] then []
    else
      var sel := orders[0].Selects();
      Where(list, (e: Entry) => sel.Matches(e.cipher))
        + Matched(orders[1..], Where(list, (e: Entry) => !sel.Matches(e.cipher)))
  }

  ghost function Unmatched(orders: seq<Order>, list: seq<Entry>): (u: seq<Entry>)
    decreases |orders|
  {
    if orders == [] then list
    else
      var sel := orders[0].Selects();
      Unmatched(orders[1..], Where(list, (e: Entry) => !sel.Matches(e.cipher)))
  }

  lemma {:induction false} WhereIn<T>(s: seq<T>, p: T -> bool)
    ensures forall x | x in Where(s, p) :: x in s && p(x)
  {
    if s != [] {
      WhereIn(s[1..], p);
    }
  }

  lemma {:induction false} MatchedIn(orders: seq<Order>, list: seq<Entry>)
    ensures forall e | e in Matched(orders, list) :: e in list && FirstMatch(orders, e.cipher) < |orders|
    ensures forall e | e in Unmatched(orders, list) :: e in list && FirstMatch(orders, e.cipher) == |orders|
    decreases |orders|
  {
    hide Selector.Matches, Order.Selects, Where;
    if orders != [] {
      var sel := orders[0].Selects();
      WhereIn(list, (e: Entry) => sel.Matches(e.cipher));
      WhereIn(list, (e: Entry) => !sel.Matches(e.cipher));
      MatchedIn(orders[1..], Where(list, (e: Entry) => !sel.Matches(e.cipher)));
    }
  }

  lemma WhereFirst<T>(s: seq<T>, p: T -> bool)
    requires s != []
    ensures multiset(Where(s, p)) == (if p(s[0]) then multiset{s[0]} else multiset{}) + multiset(Where(s[1..], p))
  {
  }

  lemma FirstAndRest<T>(s: seq<T>)
    requires s != []
    ensures multiset(s) == multiset{s[0]} + multiset(s[1..])
  {
    assert s == [s[0]] + s[1..];
  }

  lemma {:induction false} WhereSplits<T>(s: seq<T>, p: T -> bool, q: T -> bool)
    requires forall x | x in s :: p(x) != q(x)
    ensures multiset(Where(s, p)) + multiset(Where(s, q)) == multiset(s)
  {
    if s != [] {
      assert s[0] in s && forall x | x in s[1..] :: x in s;
      WhereSplits(s[1..], p, q);
      WhereFirst(s, p);
      WhereFirst(s, q);
      FirstAndRest(s);
      hide Where;
    }
  }

  lemma {:induction false} MatchedAll(orders: seq<Order>, list: seq<Entry>)
    ensures multiset(Matched(orders, list) + Unmatched(orders, list)) == multiset(list)
    decreases |orders|
  {
    hide Selector.Matches, Order.Selects, Where;
    if orders == [] {
      assert [] + list == list;
    } else {
      var sel := orders[0].Selects();
      WhereSplits(list, (e: Entry) => sel.Matches(e.cipher), (e: Entry) => !sel.Matches(e.cipher));
      MatchedAll(orders[1..], Where(list, (e: Entry) => !sel.Matches(e.cipher)));
    }
  }

  /** Adding everything again and again orders a list by the first order that selects. */
  lemma {:induction false} MatchedSorted(orders: seq<Order>, list: seq<Entry>, before: Ordering)
    requires Sorted(list, before)
    ensures Sorted(Matched(orders, list) + Unmatched(orders, list), By(c => FirstMatch(orders, c), before))
    decreases |orders|
  {
    hide Selector.Matches, Order.Selects, Where, Sorted;
    if orders == [] {
      assert [] + list == list;
      SameOrder(list, before, By(c => FirstMatch(orders, c), before));
    } else {
      var sel := orders[0].Selects();
      var hit, rest := Where(list, (e: Entry) => sel.Matches(e.cipher)),
        Where(list, (e: Entry) => !sel.Matches(e.cipher));
      WhereSorted(list, (e: Entry) => sel.Matches(e.cipher), before);
      WhereSorted(list, (e: Entry) => !sel.Matches(e.cipher), before);
      WhereIn(list, (e: Entry) => !sel.Matches(e.cipher));
      MatchedSorted(orders[1..], rest, before);
      MatchedIn(orders[1..], rest);
      var others := Matched(orders[1..], rest) + Unmatched(orders[1..], rest);
      assert Matched(orders, list) + Unmatched(orders, list) == hit + others;
      forall i | 0 <= i < |hit|
        ensures sel.Matches(hit[i].cipher)
      {
      }
      HitFirst(orders, hit, others, before);
    }
  }

  lemma SameOrder(list: seq<Entry>, before: Ordering, after: Ordering)
    requires Sorted(list, before)
    requires forall i, j | 0 <= i < j < |list| :: before(list[i].cipher, list[j].cipher) ==>
      after(list[i].cipher, list[j].cipher)
    ensures Sorted(list, after)
  {
  }

  lemma HitFirst(orders: seq<Order>, hit: seq<Entry>, others: seq<Entry>, before: Ordering)
    requires orders != [] && Sorted(hit, before) && Sorted(others, By(c => FirstMatch(orders[1..], c), before))
    requires forall i | 0 <= i < |hit| :: orders[0].Selects().Matches(hit[i].cipher)
    requires forall e | e in others :: !orders[0].Selects().Matches(e.cipher)
    ensures Sorted(hit + others, By(c => FirstMatch(orders, c), before))
  {
    hide Selector.Matches, Order.Selects;
    var ordering, all := By(c => FirstMatch(orders, c), before), hit + others;
    forall i, j | 0 <= i < j < |all|
      ensures ordering(all[i].cipher, all[j].cipher)
    {
      if i >= |hit| {
        assert all[i] == others[i - |hit|] && all[j] == others[j - |hit|];
      } else if j >= |hit| {
        assert all[i] == hit[i] && all[j] == others[j - |hit|];
      } else {
        assert all[i] == hit[i] && all[j] == hit[j];
      }
    }
  }

  ghost predicate Idle(list: seq<Entry>) {
    forall e | e in list :: !e.active && !e.inGroup
  }

  ghost predicate Adds(orders: seq<Order>) {
    forall i | 0 <= i < |orders| :: orders[i].rule == Add
  }

  lemma MarkedJoin(a: seq<Entry>, b: seq<Entry>, active: bool)
    ensures Marked(a + b, active, false) == Marked(a, active, false) + Marked(b, active, false)
  {
  }

  /** One order to add, of a list whose inactive entries come first. */
  lemma AddOne(o: Order, rest: seq<Entry>, done: seq<Entry>)
    requires o.rule == Add && Idle(rest)
    ensures var sel := o.Selects();
            Do(o, rest + Marked(done, true, false)) ==
              Where(rest, (e: Entry) => !sel.Matches(e.cipher))
                + Marked(done + Where(rest, (e: Entry) => sel.Matches(e.cipher)), true, false)
  {
    hide CipherRules.Apply, Where, Order.Selects, Selector.Matches;
    var sel, awake := o.Selects(), Marked(done, true, false);
    var p := (c: CipherInfo) => sel.Matches(c);
    var stays, moves := (e: Entry) => e.active || !p(e.cipher), (e: Entry) => !e.active && p(e.cipher);
    RuleEffect(Add, sel, p, false, rest + awake);
    WhereJoin(rest, awake, stays);
    WhereJoin(rest, awake, moves);
    WhereEvery(awake, stays, true);
    WhereEvery(awake, moves, false);
    WhereSame(rest, stays, (e: Entry) => !sel.Matches(e.cipher));
    WhereSame(rest, moves, (e: Entry) => sel.Matches(e.cipher));
    MarkedJoin(done, Where(rest, moves), true);
    assert Where(rest, moves) + [] == Where(rest, moves);
  }

  lemma {:induction false} WhereSame<T>(s: seq<T>, p: T -> bool, q: T -> bool)
    requires forall x | x in s :: p(x) == q(x)
    ensures Where(s, p) == Where(s, q)
  {
    if s != [] {
      assert s[0] in s && forall x | x in s[1..] :: x in s;
      WhereSame(s[1..], p, q);
    }
  }

  lemma {:induction false} AddAll(orders: seq<Order>, rest: seq<Entry>, done: seq<Entry>)
    requires Adds(orders) && Idle(rest)
    ensures ApplyAll(orders, rest + Marked(done, true, false)) ==
      Unmatched(orders, rest) + Marked(done + Matched(orders, rest), true, false)
    decreases |orders|
  {
    hide CipherRules.Apply, Where, Order.Selects, Selector.Matches, Marked;
    if orders == [] {
      assert done + [] == done;
    } else {
      var sel := orders[0].Selects();
      var hit, others := Where(rest, (e: Entry) => sel.Matches(e.cipher)),
        Where(rest, (e: Entry) => !sel.Matches(e.cipher));
      AddOne(orders[0], rest, done);
      WhereIn(rest, (e: Entry) => !sel.Matches(e.cipher));
      AddAll(orders[1..], others, done + hit);
      assert done + hit + Matched(orders[1..], others) == done + (hit + Matched(orders[1..], others));
    }
  }

  /** Deleting everything takes what is active to the front. */
  lemma DeleteAll(rest: seq<Entry>, done: seq<Entry>)
    requires Idle(rest) && Idle(done) && AllComplete(done)
    ensures Do(NOTHING, rest + Marked(done, true, false)) == done + rest
  {
    hide CipherRules.Apply, Where, Selector.Matches, Complete;
    var sel, awake := NOTHING.Selects(), Marked(done, true, false);
    var list, p := rest + awake, (c: CipherInfo) => sel.Matches(c);
    var stays, moves := (e: Entry) => !e.active || !p(e.cipher), (e: Entry) => e.active && p(e.cipher);
    forall e | e in awake
      ensures e.active && p(e.cipher)
    {
      var i :| 0 <= i < |done| && e.cipher == done[i].cipher;
      EverythingMatches(done[i].cipher);
    }
    RuleEffect(Del, sel, p, false, list);
    WhereJoin(rest, awake, stays);
    WhereJoin(rest, awake, moves);
    WhereEvery(rest, stays, true);
    WhereEvery(rest, moves, false);
    WhereEvery(awake, stays, false);
    WhereEvery(awake, moves, true);
    assert Marked(awake, false, false) == done by {
      forall i | 0 <= i < |done|
        ensures Marked(awake, false, false)[i] == done[i]
      {
        assert done[i] in done;
      }
    }
    assert rest + [] == rest && [] + awake == awake;
  }

  lemma EverythingMatches(c: CipherInfo)
    requires Complete(c)
    ensures NOTHING.Selects().Matches(c) && EVERYTHING.Selects().Matches(c)
  {
    hide Meets;
    AllOnesMeets(c);
  }

  // ------------------------------------------------------------ the default rules

  function KeyExchangeOrders(): seq<Order> {
    [Order(Add, K_ECDHE, A_ECDSA, ALL_ONES), Order(Add, K_ECDHE, ALL_ONES, ALL_ONES)]
  }

  function BulkOrders(aesHardware: bool): seq<Order> {
    DefaultOrder(aesHardware)[3..10]
  }

  lemma DefaultParts(aesHardware: bool)
    ensures DefaultOrder(aesHardware) == KeyExchangeOrders()
        + ([NOTHING] + (BulkOrders(aesHardware) + [STATIC, NOTHING]))
    ensures |BulkOrders(aesHardware)| == 7 && BulkOrders(aesHardware)[6] == EVERYTHING && Adds(BulkOrders(aesHardware))
  {
  }

  lemma KeyExchangeRanks(c: CipherInfo)
    requires Complete(c)
    ensures FirstMatch(KeyExchangeOrders(), c) == KeyExchangeRank(c)
  {
    hide Meets;
    AllOnesMeets(c);
    var orders := KeyExchangeOrders();
    assert orders[1..] == [orders[1]] && orders[1..][1..] == [];
  }

  lemma BulkMatches(enc: bv32, c: CipherInfo)
    requires Complete(c)
    ensures Order(Add, ALL_ONES, ALL_ONES, enc).Selects().Matches(c) <==> Meets(enc, c.enc)
  {
    hide Meets;
    AllOnesMeets(c);
  }

  /** The first of several masks that the cipher meets. */
  function FirstMask(masks: seq<bv32>, c: CipherInfo): nat {
    if masks == [] || Meets(masks[0], c.enc) then 0 else 1 + FirstMask(masks[1..], c)
  }

  lemma {:induction false} FirstMasks(orders: seq<Order>, masks: seq<bv32>, c: CipherInfo)
    requires Complete(c) && |orders| == |masks|
    requires forall i | 0 <= i < |orders| :: orders[i] == Order(Add, ALL_ONES, ALL_ONES, masks[i])
    ensures FirstMatch(orders, c) == FirstMask(masks, c)
    decreases |orders|
  {
    hide Selector.Matches, Order.Selects, Meets, Complete;
    if orders != [] {
      BulkMatches(masks[0], c);
      FirstMasks(orders[1..], masks[1..], c);
    }
  }

  lemma MaskNext(m: bv32, masks: seq<bv32>, c: CipherInfo)
    ensures FirstMask([m] + masks, c) == if Meets(m, c.enc) then 0 else 1 + FirstMask(masks, c)
  {
    assert ([m] + masks)[1..] == masks;
  }

  function LegacyMasks(): seq<bv32> {
    [0x2] + ([0x4] + ([0x1] + ([ALL_ONES] + [])))
  }

  function Masks(aesHardware: bool): seq<bv32> {
    if aesHardware then [0x8] + ([0x10] + ([0x40] + LegacyMasks()))
    else [0x40] + ([0x8] + ([0x10] + LegacyMasks()))
  }

  lemma LegacyRank(c: CipherInfo)
    requires Complete(c)
    ensures FirstMask(LegacyMasks(), c) ==
      if Meets(0x2, c.enc) then 0 else if Meets(0x4, c.enc) then 1 else if Meets(0x1, c.enc) then 2 else 3
  {
    AllOnesMeets(c);
    hide Meets, FirstMask;
    MaskNext(0x2, [0x4] + ([0x1] + ([ALL_ONES] + [])), c);
    MaskNext(0x4, [0x1] + ([ALL_ONES] + []), c);
    MaskNext(0x1, [ALL_ONES] + [], c);
    MaskNext(ALL_ONES, [], c);
  }

  lemma MasksRank(aesHardware: bool, c: CipherInfo)
    requires Complete(c)
    ensures var n := FirstMask(Masks(aesHardware), c);
            BulkRank(aesHardware, c) == if aesHardware && n < 3 then n else n + 2
  {
    LegacyRank(c);
    hide Meets, FirstMask, LegacyMasks;
    if aesHardware {
      MaskNext(0x8, [0x10] + ([0x40] + LegacyMasks()), c);
      MaskNext(0x10, [0x40] + LegacyMasks(), c);
      MaskNext(0x40, LegacyMasks(), c);
    } else {
      MaskNext(0x40, [0x8] + ([0x10] + LegacyMasks()), c);
      MaskNext(0x8, [0x10] + LegacyMasks(), c);
      MaskNext(0x10, LegacyMasks(), c);
    }
  }

  lemma BulkRanks(aesHardware: bool, c: CipherInfo)
    requires Complete(c)
    ensures var n := FirstMatch(BulkOrders(aesHardware), c);
            n < 7 && BulkRank(aesHardware, c) == if aesHardware && n < 3 then n else n + 2
  {
    hide Meets;
    FirstMasks(BulkOrders(aesHardware), Masks(aesHardware), c);
    MasksRank(aesHardware, c);
    assert BulkRank(aesHardware, c) <= 8;
  }

  lemma CompleteIn(list: seq<Entry>)
    requires AllComplete(list)
    ensures forall e | e in list :: Complete(e.cipher)
  {
  }

  /** A list in `part` of one that is idle and complete. */
  lemma PartOf(part: seq<Entry>, list: seq<Entry>)
    requires Idle(list) && AllComplete(list) && forall e | e in part :: e in list
    ensures Idle(part) && AllComplete(part)
  {
    hide Complete;
    CompleteIn(list);
    forall i | 0 <= i < |part|
      ensures Complete(part[i].cipher)
    {
      assert part[i] in list;
    }
  }

  /** The first three rules sort by key exchange. */
  lemma KeyExchangePhase(all: seq<Entry>, before: Ordering) returns (r: seq<Entry>)
    requires Idle(all) && AllComplete(all) && Sorted(all, before)
    ensures r == Do(NOTHING, ApplyAll(KeyExchangeOrders(), all))
    ensures Idle(r) && AllComplete(r) && Sorted(r, By(KeyExchangeRank, before)) && multiset(r) == multiset(all)
  {
    hide CipherRules.Apply, Where, Complete, Order.Selects, Selector.Matches, KeyExchangeRank, FirstMatch;
    var orders := KeyExchangeOrders();
    var m, u := Matched(orders, all), Unmatched(orders, all);
    assert all + Marked([], true, false) == all && [] + m == m;
    AddAll(orders, all, []);
    MatchedIn(orders, all);
    PartOf(m, all);
    PartOf(u, all);
    DeleteAll(u, m);
    r := m + u;
    PartOf(r, all);
    MatchedAll(orders, all);
    MatchedSorted(orders, all, before);
    CompleteIn(r);
    forall c | Complete(c)
      ensures FirstMatch(orders, c) == KeyExchangeRank(c)
    {
      KeyExchangeRanks(c);
    }
    SameOrder(r, By(c => FirstMatch(orders, c), before), By(KeyExchangeRank, before));
  }

  lemma BulkSorted(aesHardware: bool, m: seq<Entry>, before: Ordering)
    requires AllComplete(m) && Sorted(m, By(c => FirstMatch(BulkOrders(aesHardware), c), before))
    ensures Sorted(m, By(c => BulkRank(aesHardware, c), before))
  {
    hide Complete, BulkRank, FirstMatch, BulkOrders;
    forall c | Complete(c)
      ensures var n := FirstMatch(BulkOrders(aesHardware), c);
              n < 7 && BulkRank(aesHardware, c) == if aesHardware && n < 3 then n else n + 2
    {
      BulkRanks(aesHardware, c);
    }
    SameOrder(m, By(c => FirstMatch(BulkOrders(aesHardware), c), before), By(c => BulkRank(aesHardware, c), before));
  }

  /** The next seven sort by bulk cipher and leave everything active. */
  lemma BulkPhase(aesHardware: bool, list: seq<Entry>, before: Ordering) returns (r: seq<Entry>)
    requires Idle(list) && AllComplete(list) && Sorted(list, before)
    ensures ApplyAll(BulkOrders(aesHardware), list) == Marked(r, true, false)
    ensures Idle(r) && AllComplete(r) && Sorted(r, By(c => BulkRank(aesHardware, c), before))
    ensures multiset(r) == multiset(list)
  {
    hide CipherRules.Apply, Complete, BulkRank, FirstMatch, BulkOrders, ApplyAll, AllComplete,
      Matched, Unmatched, Sorted, By;
    var orders := BulkOrders(aesHardware);
    DefaultParts(aesHardware);
    var m, u := Matched(orders, list), Unmatched(orders, list);
    assert list + Marked([], true, false) == list && [] + m == m;
    AddAll(orders, list, []);
    MatchedIn(orders, list);
    CompleteIn(list);
    if u != [] {
      assert u[0] in u;
      BulkRanks(aesHardware, u[0].cipher);
      assert false;
    }
    assert u + Marked(m, true, false) == Marked(m, true, false) && m + u == m;
    PartOf(m, list);
    MatchedAll(orders, list);
    MatchedSorted(orders, list, before);
    BulkSorted(aesHardware, m, before);
    r := m;
  }

  lemma {:induction false} WhereMarked(list: seq<Entry>, p: CipherInfo -> bool, active: bool)
    ensures Where(Marked(list, active, false), (e: Entry) => p(e.cipher)) ==
      Marked(Where(list, (e: Entry) => p(e.cipher)), active, false)
  {
    if list != [] {
      assert Marked(list, active, false)[1..] == Marked(list[1..], active, false);
      WhereMarked(list[1..], p, active);
    }
  }

  lemma StaticRanks(c: CipherInfo)
    requires Complete(c)
    ensures STATIC.Selects().Matches(c) <==> StaticRank(c) == 1
  {
    AllOnesMeets(c);
    StaticMasks(c.mkey);
    hide Meets;
  }

  lemma StaticMasks(k: bv32)
    ensures Meets(K_RSA | K_PSK, k) <==> Meets(0x1, k) || Meets(0x4, k)
  {
  }

  /** Then those without forward secrecy go to the end. */
  lemma StaticPhase(list: seq<Entry>, before: Ordering) returns (r: seq<Entry>)
    requires Idle(list) && AllComplete(list) && Sorted(list, before)
    ensures Do(STATIC, Marked(list, true, false)) == Marked(r, true, false)
    ensures Idle(r) && AllComplete(r) && Sorted(r, By(StaticRank, before)) && multiset(r) == multiset(list)
  {
    hide CipherRules.Apply, Where, Complete, Selector.Matches, StaticRank;
    var sel, awake := STATIC.Selects(), Marked(list, true, false);
    var p := (c: CipherInfo) => StaticRank(c) == 1;
    var q := (c: CipherInfo) => StaticRank(c) != 1;
    CompleteIn(list);
    forall e: Entry | e in awake
      ensures sel.Matches(e.cipher) <==> p(e.cipher)
    {
      var i :| 0 <= i < |list| && e.cipher == list[i].cipher;
      assert list[i] in list;
      StaticRanks(e.cipher);
    }
    RuleEffect(Ord, sel, p, false, awake);
    WhereSame(awake, (e: Entry) => !e.active || !p(e.cipher), (e: Entry) => q(e.cipher));
    WhereSame(awake, (e: Entry) => e.active && p(e.cipher), (e: Entry) => p(e.cipher));
    WhereMarked(list, p, true);
    WhereMarked(list, q, true);
    var a, b := Where(list, (e: Entry) => q(e.cipher)), Where(list, (e: Entry) => p(e.cipher));
    assert Marked(Marked(b, true, false), true, false) == Marked(b, true, false);
    MarkedJoin(a, b, true);
    r := a + b;
    WhereSorted(list, (e: Entry) => q(e.cipher), before);
    WhereSorted(list, (e: Entry) => p(e.cipher), before);
    PartOf(r, list);
    WhereSplits(list, (e: Entry) => q(e.cipher), (e: Entry) => p(e.cipher));
    SplitSorted(a, b, before);
  }

  lemma SplitSorted(a: seq<Entry>, b: seq<Entry>, before: Ordering)
    requires Sorted(a, before) && Sorted(b, before)
    requires forall i | 0 <= i < |a| :: StaticRank(a[i].cipher) != 1
    requires forall i | 0 <= i < |b| :: StaticRank(b[i].cipher) == 1
    ensures Sorted(a + b, By(StaticRank, before))
  {
    var all, ordering := a + b, By(StaticRank, before);
    forall i, j | 0 <= i < j < |all|
      ensures ordering(all[i].cipher, all[j].cipher)
    {
      assert i < |a| ==> StaticRank(all[i].cipher) == 0;
      assert j >= |a| ==> StaticRank(all[j].cipher) == 1;
      assert i >= |a| ==> all[i] == b[i - |a|] && all[j] == b[j - |a|];
    }
  }

  lemma InTableFirst(ciphers: seq<CipherInfo>, b: CipherInfo)
    requires ciphers != [] && b in ciphers[1..]
    ensures InTable(ciphers)(ciphers[0], b)
  {
    var l :| 0 <= l < |ciphers[1..]| && ciphers[1..][l] == b;
    assert ciphers[0] == ciphers[0] && ciphers[l + 1] == b;
  }

  lemma InTableLater(ciphers: seq<CipherInfo>, a: CipherInfo, b: CipherInfo)
    requires ciphers != [] && InTable(ciphers[1..])(a, b)
    ensures InTable(ciphers)(a, b)
  {
    var rest := ciphers[1..];
    var k, l :| 0 <= k < l < |rest| && rest[k] == a && rest[l] == b;
    assert ciphers[k + 1] == a && ciphers[l + 1] == b;
  }

  lemma SortedBehind(first: Entry, others: seq<Entry>, before: Ordering)
    requires Sorted(others, before) && forall e | e in others :: before(first.cipher, e.cipher)
    ensures Sorted([first] + others, before)
  {
    var all := [first] + others;
    forall i, j | 0 <= i < j < |all|
      ensures before(all[i].cipher, all[j].cipher)
    {
      assert all[j] == others[j - 1] && (i > 0 ==> all[i] == others[i - 1]);
    }
  }

  lemma {:induction false} CollectedSorted(ciphers: seq<CipherInfo>, supports: CipherInfo -> bool)
    ensures Sorted(Collected(ciphers, supports), InTable(ciphers)) && Idle(Collected(ciphers, supports))
    ensures forall e | e in Collected(ciphers, supports) :: e.cipher in ciphers
  {
    hide Sorted, InTable;
    if ciphers == [] {
      NothingSorted(InTable(ciphers));
    } else {
      var rest := ciphers[1..];
      var others, first := Collected(rest, supports), Entry(ciphers[0], false, false);
      CollectedSorted(rest, supports);
      LaterSorted(ciphers, others);
      forall e | e in others
        ensures InTable(ciphers)(first.cipher, e.cipher)
      {
        InTableFirst(ciphers, e.cipher);
      }
      SortedBehind(first, others, InTable(ciphers));
      assert [] + others == others;
    }
  }

  lemma NothingSorted(before: Ordering)
    ensures Sorted([], before)
  {
  }

  lemma LaterSorted(ciphers: seq<CipherInfo>, others: seq<Entry>)
    requires ciphers != [] && Sorted(others, InTable(ciphers[1..]))
    ensures Sorted(others, InTable(ciphers))
  {
    hide InTable;
    forall i, j | 0 <= i < j < |others|
      ensures InTable(ciphers)(others[i].cipher, others[j].cipher)
    {
      InTableLater(ciphers, others[i].cipher, others[j].cipher);
    }
  }

  /** The ciphers that are sorted are all that are supported, but for those of TLS 1.3. */
  lemma {:induction false} CollectedExactly(ciphers: seq<CipherInfo>, supports: CipherInfo -> bool, c: CipherInfo)
    ensures Entry(c, false, false) in Collected(ciphers, supports) <==>
      c in ciphers && supports(c) && c.mkey != 0x8
  {
    if ciphers != [] {
      CollectedExactly(ciphers[1..], supports, c);
      assert c in ciphers <==> c == ciphers[0] || c in ciphers[1..];
    }
  }

  /** By forward secrecy, then bulk cipher, then key exchange, then place in the table. */
  ghost function DefaultOrdering(ciphers: seq<CipherInfo>, aesHardware: bool): Ordering {
    By(StaticRank, By(c => BulkRank(aesHardware, c), By(KeyExchangeRank, InTable(ciphers))))
  }

  /** Before the rule string is looked at everything is disabled and sorted in that order. */
  lemma DefaultOrderSorts(ciphers: seq<CipherInfo>, supports: CipherInfo -> bool, aesHardware: bool)
    requires forall c | c in ciphers :: Complete(c)
    ensures var list := ApplyAll(DefaultOrder(aesHardware), Collected(ciphers, supports));
            && Idle(list) && multiset(list) == multiset(Collected(ciphers, supports))
            && Sorted(list, DefaultOrdering(ciphers, aesHardware))
  {
    hide CipherRules.Apply, Complete, Sorted, Collected, DefaultOrder, BulkOrders, KeyExchangeOrders, InTable;
    var all := Collected(ciphers, supports);
    CollectedSorted(ciphers, supports);
    CollectedComplete(ciphers, supports);
    DefaultParts(aesHardware);
    var bulk := BulkOrders(aesHardware);
    ApplyAllJoins(KeyExchangeOrders(), [NOTHING] + (bulk + [STATIC, NOTHING]), all);
    var a := KeyExchangePhase(all, InTable(ciphers));
    OneMore(NOTHING, bulk + [STATIC, NOTHING], ApplyAll(KeyExchangeOrders(), all));
    ApplyAllJoins(bulk, [STATIC, NOTHING], a);
    var b := BulkPhase(aesHardware, a, By(KeyExchangeRank, InTable(ciphers)));
    var s := StaticPhase(b, By(c => BulkRank(aesHardware, c), By(KeyExchangeRank, InTable(ciphers))));
    assert [STATIC, NOTHING] == [STATIC] + [NOTHING] && [NOTHING] == [NOTHING] + [];
    OneMore(STATIC, [NOTHING], Marked(b, true, false));
    OneMore(NOTHING, [], Marked(s, true, false));
    DeleteAll([], s);
    assert [] + Marked(s, true, false) == Marked(s, true, false) && s + [] == s;
    assert ApplyAll([], s) == s;
  }

  lemma OneMore(o: Order, orders: seq<Order>, list: seq<Entry>)
    ensures ApplyAll([o] + orders, list) == ApplyAll(orders, Do(o, list))
  {
    assert ([o] + orders)[1..] == orders;
  }

  /** ChaCha20 comes before AES-GCM exactly without AES in hardware, among ciphers that agree
      about forward secrecy. */
  lemma ChaChaOrGcm(ciphers: seq<CipherInfo>, supports: CipherInfo -> bool, aesHardware: bool, i: nat, j: nat)
    requires forall c | c in ciphers :: Complete(c)
    requires var list := ApplyAll(DefaultOrder(aesHardware), Collected(ciphers, supports));
             && i < |list| && j < |list| && StaticRank(list[i].cipher) == StaticRank(list[j].cipher)
             && list[i].cipher.enc == 0x40 && (list[j].cipher.enc == 0x8 || list[j].cipher.enc == 0x10)
    ensures i < j <==> !aesHardware
  {
    hide ApplyAll, DefaultOrder, Collected, InTable, Complete;
    DefaultOrderSorts(ciphers, supports, aesHardware);
    var list := ApplyAll(DefaultOrder(aesHardware), Collected(ciphers, supports));
    var a, b := list[i].cipher, list[j].cipher;
    assert BulkRank(aesHardware, a) == 2;
    assert BulkRank(aesHardware, b) == if aesHardware then if b.enc == 0x8 then 0 else 1
        else if b.enc == 0x8 then 3 else 4;
    assert i != j;
  }
}
