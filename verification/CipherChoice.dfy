/** The server's choice among the ciphers both sides support. */
module CipherChoice {
  import opened Bytes
  import opened CipherRules
  import opened CipherScanner
  import opened CipherListShape
  import opened CipherPreferences

  const A_GENERIC: bv32 := 0x8
  const TLS1_2_VERSION := 0x0303
  const TLS1_3_VERSION := 0x0304

  /** The version and the algorithms the server can use in this handshake. */
  datatype Server = Server(version: nat, mkey: bv32, auth: bv32)

  function MaxVersion(c: CipherInfo): nat {
    if c.mkey == K_GENERIC || c.auth == A_GENERIC then TLS1_3_VERSION else TLS1_2_VERSION
  }

  predicate Compatible(s: Server, c: CipherInfo) {
    c.minVersion <= s.version <= MaxVersion(c) && Meets(c.mkey, s.mkey) && Meets(c.auth, s.auth)
  }

  /** Section 7.4.1.3 of RFC 5246 and the configuration of the server, in the fields of the
      cipher: one that is too new for the version of the handshake is never used, nor one of
      TLS 1.2 or earlier in TLS 1.3, nor one whose key exchange or authentication the server
      cannot do. */
  lemma CompatibleMeans(s: Server, c: CipherInfo)
    ensures Compatible(s, c) <==>
      && c.minVersion <= s.version
      && s.version <= (if c.mkey == 0x8 || c.auth == 0x8 then 0x0304 else 0x0303)
      && c.mkey & s.mkey != 0 && c.auth & s.auth != 0
  {
    hide Meets;
    MeetsMeans(c.mkey, s.mkey);
    MeetsMeans(c.auth, s.auth);
  }

  lemma MeetsMeans(mask: bv32, algorithm: bv32)
    ensures Meets(mask, algorithm) <==> mask & algorithm != 0
  {
  }

  /** The position of the first occurrence, the length of the list if there is none. */
  function Position(list: seq<CipherInfo>, c: CipherInfo): (i: nat)
    ensures i <= |list| && (i < |list| ==> list[i] == c)
    ensures c in list <==> i < |list|
  {
    if list == [] then 0 else if list[0] == c then 0 else 1 + Position(list[1..], c)
  }

  lemma {:induction false} PositionIsFirst(list: seq<CipherInfo>, c: CipherInfo)
    ensures c !in list[..Position(list, c)]
  {
    if list != [] && list[0] != c {
      PositionIsFirst(list[1..], c);
      assert list[..Position(list, c)] == [list[0]] + list[1..][..Position(list[1..], c)];
    }
  }

  /** `sk_find` on a list without comparison function. */
  method Find(list: seq<CipherInfo>, c: CipherInfo) returns (found: bool, index: nat)
    ensures found <==> c in list
    ensures found ==> index == Position(list, c)
  {
    index := 0;
    while index < |list|
      invariant 0 <= index <= |list|
      invariant Position(list, c) == index + Position(list[index..], c)
    {
      if list[index] == c {
        return true, index;
      }
      assert list[index..][1..] == list[index + 1..];
      index := index + 1;
    }
    return false, index;
  }

  /** The choice to be made: `prio` is the list that decides, `flags` are its group flags if
      it has any, and `allow` is the other side's list. */
  datatype Contest = Contest(server: Server, prio: seq<CipherInfo>, flags: Option<seq<bool>>, allow: seq<CipherInfo>) {
    predicate Valid() {
      flags.Some? ==> |flags.value| == |prio|
    }

    predicate Candidate(i: nat)
      requires i < |prio|
    {
      Compatible(server, prio[i]) && prio[i] in allow
    }

    /** Does the group of this element go on behind it? */
    predicate Grouped(i: nat)
      requires Valid() && i < |prio|
    {
      flags.Some? && flags.value[i]
    }

    /** Are the two elements in one group? */
    predicate SameGroup(i: nat, j: nat)
      requires Valid() && i < |prio| && j < |prio|
    {
      (forall k: nat | i <= k < j :: Grouped(k)) && (forall k: nat | j <= k < i :: Grouped(k))
    }

    predicate InClosedGroup(i: nat)
      requires Valid() && i < |prio|
    {
      exists e: nat | i <= e < |prio| :: !Grouped(e)
    }

    /** The element is a candidate, no group before its own has a candidate, its group is
        closed, and no candidate of its group is earlier in the other side's list. */
    ghost predicate Best(i: nat)
      requires Valid()
    {
      && i < |prio| && Candidate(i) && InClosedGroup(i)
      && (forall k: nat | k < |prio| && Candidate(k) ::
            if SameGroup(i, k) then Position(allow, prio[i]) <= Position(allow, prio[k]) else i < k)
    }
  }

  /** `ssl3_choose_cipher` once the two lists have been assigned their roles. */
  method Choose(c: Contest) returns (r: Option<CipherInfo>)
    requires c.Valid()
    ensures r.Some? ==> exists i: nat :: c.Best(i) && c.prio[i] == r.value
    ensures r.None? ==> forall i: nat | i < |c.prio| && c.Candidate(i) :: !c.InClosedGroup(i)
  {
    hide Compatible, Position, Contest.Best, Contest.SameGroup, Contest.InClosedGroup;
    var groupMin: int := -1;
    ghost var start, w: nat := 0, 0;
    var i := 0;
    while i < |c.prio|
      invariant 0 <= start <= i <= |c.prio|
      invariant forall k: nat | k < start :: !c.Candidate(k)
      invariant start > 0 ==> !c.Grouped(start - 1)
      invariant forall k: nat | start <= k < i :: c.Grouped(k)
      invariant c.flags.None? ==> groupMin == -1
      invariant groupMin == -1 ==> forall k: nat | start <= k < i :: !c.Candidate(k)
      invariant groupMin != -1 ==> start <= w < i && c.Candidate(w) && groupMin == Position(c.allow, c.prio[w])
      invariant groupMin != -1 ==>
        forall k: nat | start <= k < i && c.Candidate(k) :: groupMin <= Position(c.allow, c.prio[k])
    {
      var found, index := false, 0;
      if Compatible(c.server, c.prio[i]) {
        found, index := Find(c.allow, c.prio[i]);
      }
      if found {
        if c.flags.Some? && c.flags.value[i] {
          if groupMin == -1 || groupMin > index {
            groupMin := index;
            w := i;
          }
        } else {
          ghost var b: nat := i;
          if groupMin != -1 && groupMin < index {
            index := groupMin;
            b := w;
          }
          IsBest(c, start, b, i);
          return Some(c.allow[index]);
        }
      }
      if c.flags.Some? && !c.flags.value[i] && groupMin != -1 {
        IsBest(c, start, w, i);
        return Some(c.allow[groupMin]);
      }
      if !c.Grouped(i) {
        start := i + 1;
      }
      i := i + 1;
    }
    NeverClosed(c, start);
    return None;
  }

  lemma NeverClosed(c: Contest, start: nat)
    requires c.Valid() && start <= |c.prio| && forall k: nat | start <= k < |c.prio| :: c.Grouped(k)
    ensures forall k: nat | start <= k < |c.prio| :: !c.InClosedGroup(k)
  {
  }

  /** The best candidate of the group from `start` to `end`. */
  lemma IsBest(c: Contest, start: nat, b: nat, end: nat)
    requires c.Valid() && start <= b <= end < |c.prio| && c.Candidate(b) && !c.Grouped(end)
    requires forall k: nat | k < start :: !c.Candidate(k)
    requires start > 0 ==> !c.Grouped(start - 1)
    requires forall k: nat | start <= k < end :: c.Grouped(k)
    requires forall k: nat | start <= k <= end && c.Candidate(k) ::
      Position(c.allow, c.prio[b]) <= Position(c.allow, c.prio[k])
    ensures c.Best(b)
  {
    forall k: nat | k < |c.prio| && c.Candidate(k)
      ensures if c.SameGroup(b, k) then Position(c.allow, c.prio[b]) <= Position(c.allow, c.prio[k]) else b < k
    {
      if k > end {
        assert !c.SameGroup(b, k) by { assert b <= end < k; }
      }
    }
  }

  /** There is only one best candidate, so the contract of `Choose` determines its result. */
  lemma BestIsUnique(c: Contest, i: nat, j: nat)
    requires c.Valid() && c.Best(i) && c.Best(j)
    ensures c.prio[i] == c.prio[j]
  {
    assert c.SameGroup(i, j) <==> c.SameGroup(j, i);
  }

  /** The last element of a closed group. */
  ghost function End(c: Contest, i: nat): (e: nat)
    requires c.Valid() && i < |c.prio| && c.InClosedGroup(i)
    ensures i <= e < |c.prio| && !c.Grouped(e) && forall k: nat | i <= k < e :: c.Grouped(k)
    decreases |c.prio| - i
  {
    if c.Grouped(i) then End(c, i + 1) else i
  }

  lemma NotSameGroup(c: Contest, i: nat, k: nat, e: nat)
    requires c.Valid() && i <= e < |c.prio| && k < |c.prio| && !c.Grouped(e)
    ensures e < k ==> !c.SameGroup(i, k)
  {
  }

  /** A choice is made exactly if some candidate's group is closed. */
  lemma {:induction false} BestExists(c: Contest, i: nat)
    requires c.Valid() && i < |c.prio| && c.Candidate(i) && c.InClosedGroup(i)
    ensures exists b: nat :: c.Best(b)
    decreases End(c, i), Position(c.allow, c.prio[i])
  {
    if !c.Best(i) {
      var k: nat :| k < |c.prio| && c.Candidate(k) &&
        !(if c.SameGroup(i, k) then Position(c.allow, c.prio[i]) <= Position(c.allow, c.prio[k]) else i < k);
      NotSameGroup(c, i, k, End(c, i));
      BestExists(c, k);
    }
  }

  /** In lists made by `ssl_create_cipher_list` all groups are closed, so that handshakes
      with them fail for want of a shared cipher only if there is none. */
  lemma CreatedListsChoose(tables: Tables, supports: CipherInfo -> bool, aesHardware: bool, rules: string, strict: bool,
      server: Server, client: seq<CipherInfo>, i: nat)
    requires DistinctCiphers(tables.ciphers)
    requires var p := Create(tables, supports, aesHardware, rules, strict);
             p.Some? && i < |p.value.ciphers| &&
             Contest(server, p.value.ciphers, Some(p.value.inGroup), client).Candidate(i)
    ensures var p := Create(tables, supports, aesHardware, rules, strict).value;
            exists b: nat :: Contest(server, p.ciphers, Some(p.inGroup), client).Best(b)
  {
    hide Create;
    CreatedPreferences(tables, supports, aesHardware, rules, strict);
    var p := Create(tables, supports, aesHardware, rules, strict).value;
    var c := Contest(server, p.ciphers, Some(p.inGroup), client);
    assert !c.Grouped(|p.ciphers| - 1);
    BestExists(c, i);
  }

  /** Without group flags the choice is the candidate that comes first. */
  lemma FirstWithoutGroups(c: Contest, i: nat)
    requires c.flags.None?
    ensures c.Best(i) <==> i < |c.prio| && c.Candidate(i) && forall k: nat | k < |c.prio| && c.Candidate(k) :: i <= k
  {
    if i < |c.prio| {
      assert c.InClosedGroup(i) by {
        assert !c.Grouped(i);
      }
      forall k: nat | k < |c.prio|
        ensures c.SameGroup(i, k) <==> i == k
      {
        assert i < k ==> !c.Grouped(i);
        assert k < i ==> !c.Grouped(k);
      }
    }
  }

  /** In a list whose last group is left open a shared cipher is not found. */
  lemma OpenGroupFindsNothing(server: Server, cipher: CipherInfo)
    requires Compatible(server, cipher)
    ensures var c := Contest(server, [cipher], Some([true]), [cipher]);
            c.Candidate(0) && !exists b: nat :: c.Best(b)
  {
  }

  /** `ssl3_choose_cipher` */
  method ChooseCipher(server: Server, serverPreference: bool, client: Option<seq<CipherInfo>>, preferences: Preferences)
    returns (r: Option<CipherInfo>)
    requires |preferences.ciphers| == |preferences.inGroup|
    ensures client.None? ==> r.None?
    ensures client.Some? ==>
      var c := if serverPreference then Contest(server, preferences.ciphers, Some(preferences.inGroup), client.value)
               else Contest(server, client.value, None, preferences.ciphers);
      if r.Some? then exists i: nat :: c.Best(i) && c.prio[i] == r.value else !exists i: nat :: c.Best(i)
    ensures r.Some? ==>
      && r.value in client.value && r.value in preferences.ciphers
      && r.value.minVersion <= server.version
      && server.version <= (if r.value.mkey == 0x8 || r.value.auth == 0x8 then 0x0304 else 0x0303)
      && r.value.mkey & server.mkey != 0 && r.value.auth & server.auth != 0
  {
    hide Contest.InClosedGroup, Contest.SameGroup, Compatible;
    if client.None? {
      return None;
    }
    var c := if serverPreference then Contest(server, preferences.ciphers, Some(preferences.inGroup), client.value)
             else Contest(server, client.value, None, preferences.ciphers);
    r := Choose(c);
    if r.Some? {
      CompatibleMeans(server, r.value);
    }
  }

  /** With nothing chosen, every cipher that both sides list and whose group is closed is too
      new or too old for the version, or needs what the server cannot do. */
  lemma NothingChosen(c: Contest, i: nat)
    requires c.Valid() && i < |c.prio| && c.prio[i] in c.allow && c.InClosedGroup(i)
    requires !exists b: nat :: c.Best(b)
    ensures var s, p := c.server, c.prio[i];
            || s.version < p.minVersion
            || s.version > (if p.mkey == 0x8 || p.auth == 0x8 then 0x0304 else 0x0303)
            || p.mkey & s.mkey == 0 || p.auth & s.auth == 0
  {
    hide Contest.Best, Compatible;
    CompatibleMeans(c.server, c.prio[i]);
    if c.Candidate(i) {
      BestExists(c, i);
    }
  }
}
