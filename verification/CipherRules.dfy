/** The cipher preference rules by value. */
module CipherRules {
  /** The fields of SSL_CIPHER that rules look at. */
  datatype CipherInfo = CipherInfo(
    name: string, id: nat, mkey: bv32, auth: bv32, enc: bv32, mac: bv32, minVersion: nat, bits: nat)

  /** CIPHER_ORDER without its links. */
  datatype Entry = Entry(cipher: CipherInfo, active: bool, inGroup: bool)

  datatype Rule = Add | Ord | Del | Kill

  predicate Meets(mask: bv32, algorithm: bv32) {
    mask & algorithm != 0
  }

  datatype Selector = Selector(
    cipherId: nat, mkey: bv32, auth: bv32, enc: bv32, mac: bv32, minVersion: nat, strengthBits: int)
  {
    /** The early return of `ssl_cipher_apply_rule`. */
    predicate MatchesNothing() {
      cipherId == 0 && strengthBits == -1 && minVersion == 0 && (mkey == 0 || auth == 0 || enc == 0 || mac == 0)
    }

    predicate Matches(c: CipherInfo) {
      if cipherId != 0 then cipherId == c.id
      else if strengthBits >= 0 then strengthBits == c.bits
      else
        && Meets(mkey, c.mkey) && Meets(auth, c.auth) && Meets(enc, c.enc) && Meets(mac, c.mac)
        && (minVersion != 0 ==> c.minVersion == minVersion)
    }
  }

  /** Does the rule act on this entry? */
  predicate Hit(rule: Rule, sel: Selector, e: Entry)
  {
    sel.Matches(e.cipher) && (rule.Add? ==> !e.active) && (rule.Ord? || rule.Del? ==> e.active)
  }

  function Change(rule: Rule, inGroup: bool, e: Entry): (r: Entry)
  {
    match rule
    case Add => e.(active := true, inGroup := inGroup)
    case Ord => e.(inGroup := false)
    case Del => e.(active := false, inGroup := false)
    case Kill => e.(active := false)
  }

  /** The elements whose flag is `b`, in order. */
  ghost function Select<T>(s: seq<T>, h: seq<bool>, b: bool): (r: seq<T>)
    requires |s| == |h|
  {
    if s == [] then [] else (if h[0] == b then [s[0]] else []) + Select(s[1..], h[1..], b)
  }

  ghost function Hits(rule: Rule, sel: Selector, list: seq<Entry>): (h: seq<bool>)
    ensures |h| == |list| && forall i | 0 <= i < |list| :: h[i] == Hit(rule, sel, list[i])
  {
    seq(|list|, i requires 0 <= i < |list| => Hit(rule, sel, list[i]))
  }

  ghost function ChangeAll(rule: Rule, inGroup: bool, list: seq<Entry>): (r: seq<Entry>)
    ensures |r| == |list|
  {
    seq(|list|, i requires 0 <= i < |list| => Change(rule, inGroup, list[i]))
  }

  /** What `ssl_cipher_apply_rule` does to the list of preferences: the entries it acts
      on keep their order and go to the end, to the front, or away; the rest keep theirs. */
  ghost function Apply(rule: Rule, sel: Selector, inGroup: bool, list: seq<Entry>): (r: seq<Entry>)
  {
    var h := Hits(rule, sel, list);
    var rest, moved := Select(list, h, false), ChangeAll(rule, inGroup, Select(list, h, true));
    match rule
    case Add => rest + moved
    case Ord => rest + moved
    case Del => moved + rest
    case Kill => rest
  }

  lemma {:induction false} SelectAppend<T>(s: seq<T>, h: seq<bool>, t: seq<T>, g: seq<bool>, b: bool)
    requires |s| == |h| && |t| == |g|
    ensures Select(s + t, h + g, b) == Select(s, h, b) + Select(t, g, b)
  {
    if s == [] {
      assert s + t == t && h + g == g;
    } else {
      assert (s + t)[1..] == s[1..] + t && (h + g)[1..] == h[1..] + g;
      SelectAppend(s[1..], h[1..], t, g, b);
      var first := if h[0] == b then [s[0]] else [];
      assert Select(s + t, h + g, b) == first + Select((s + t)[1..], (h + g)[1..], b);
    }
  }

  /** Selecting from one element more. */
  lemma SelectNext<T>(s: seq<T>, h: seq<bool>, i: nat, b: bool)
    requires i < |s| == |h|
    ensures Select(s[..i + 1], h[..i + 1], b) == Select(s[..i], h[..i], b) + if h[i] == b then [s[i]] else []
    ensures Select(s[i..], h[i..], b) == (if h[i] == b then [s[i]] else []) + Select(s[i + 1..], h[i + 1..], b)
  {
    assert s[..i + 1] == s[..i] + [s[i]] && h[..i + 1] == h[..i] + [h[i]];
    SelectAppend(s[..i], h[..i], [s[i]], [h[i]], b);
    assert s[i..][1..] == s[i + 1..] && h[i..][1..] == h[i + 1..];
    assert Select([s[i]], [h[i]], b) == (if h[i] == b then [s[i]] else []) + Select([s[i]][1..], [h[i]][1..], b);
  }

  lemma {:induction false} SelectAll<T>(s: seq<T>, h: seq<bool>, b: bool)
    requires |s| == |h| && forall i | 0 <= i < |h| :: h[i] == b
    ensures Select(s, h, b) == s && Select(s, h, !b) == []
  {
    if s != [] {
      SelectAll(s[1..], h[1..], b);
    }
  }

  /** The early return of `ssl_cipher_apply_rule` skips only rules without effect. */
  lemma NothingApplies(rule: Rule, sel: Selector, inGroup: bool, list: seq<Entry>)
    requires sel.MatchesNothing()
    ensures Apply(rule, sel, inGroup, list) == list
  {
    SelectAll(list, Hits(rule, sel, list), false);
  }

  /** Selecting commutes with changing exactly the selected elements. */
  lemma {:induction false} SelectChanged(rule: Rule, inGroup: bool, list: seq<Entry>, now: seq<Entry>, h: seq<bool>)
    requires |list| == |now| == |h|
    requires forall i | 0 <= i < |list| :: now[i] == if h[i] then Change(rule, inGroup, list[i]) else list[i]
    ensures Select(now, h, false) == Select(list, h, false)
    ensures Select(now, h, true) == ChangeAll(rule, inGroup, Select(list, h, true))
  {
    if list != [] {
      SelectChanged(rule, inGroup, list[1..], now[1..], h[1..]);
    }
  }

  lemma {:induction false} SelectMember<T>(s: seq<T>, h: seq<bool>, b: bool, x: T)
    requires |s| == |h|
    ensures x in Select(s, h, b) <==> exists i | 0 <= i < |s| :: s[i] == x && h[i] == b
  {
    if s != [] {
      SelectMember(s[1..], h[1..], b, x);
      if i :| 0 <= i < |s| && s[i] == x && h[i] == b {
        if i > 0 {
          assert s[1..][i - 1] == x && h[1..][i - 1] == b;
        }
      }
      if x in Select(s[1..], h[1..], b) {
        var j :| 0 <= j < |s[1..]| && s[1..][j] == x && h[1..][j] == b;
        assert s[j + 1] == x && h[j + 1] == b;
      }
    }
  }
}
