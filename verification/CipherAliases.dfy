/** What a rule of several aliases selects: `A+B` is meant to be the intersection. */
module CipherAliases {
  import opened Bytes
  import opened CipherRules
  import opened CipherScanner
  import opened CipherProgram

  /** Does the alias alone stand for this cipher? */
  predicate Stands(a: Alias, c: CipherInfo) {
    && Admits(a.mkey, a.auth, a.enc, a.mac, c)
    && (a.minVersion != 0 ==> c.minVersion == a.minVersion)
  }

  /** Every cipher has one algorithm of each kind, and each algorithm is one bit. */
  predicate OneBitEach(c: CipherInfo) {
    OneBit(c.mkey) && OneBit(c.auth) && OneBit(c.enc) && OneBit(c.mac)
  }

  predicate OneBit(x: bv32) {
    x & (x - 1) == 0
  }

  /** Has the rule been kept, and does it select the cipher? */
  predicate Selected(d: Criteria, c: CipherInfo) {
    !d.skip && d.Selects().Matches(c)
  }

  function NarrowAll(d: Criteria, aliases: seq<Alias>): Criteria
    decreases |aliases|
  {
    if aliases == [] then d else NarrowAll(d.Narrow(aliases[0]), aliases[1..])
  }

  /** No alias without a version comes after one with a version. */
  ghost predicate VersionsLast(aliases: seq<Alias>) {
    forall k, l | 0 <= k < l < |aliases| :: aliases[k].minVersion != 0 ==> aliases[l].minVersion != 0
  }

  lemma OneBitAll(a: bv32, x: bv32)
    requires OneBit(x)
    ensures a & x == 0 || a & x == x
  {
  }

  lemma AllSplits(a: bv32, b: bv32, x: bv32)
    requires a & x == 0 || a & x == x
    requires b & x == 0 || b & x == x
    ensures Meets(Both(a, b), x) <==> Meets(a, x) && Meets(b, x)
  {
  }

  lemma OneBitSplits(a: bv32, b: bv32, x: bv32)
    requires OneBit(x)
    ensures Meets(Both(a, b), x) <==> Meets(a, x) && Meets(b, x)
  {
    hide OneBit, Meets, Both;
    OneBitAll(a, x);
    OneBitAll(b, x);
    AllSplits(a, b, x);
  }

  /** Do the masks admit the cipher's algorithms? */
  predicate Admits(mkey: bv32, auth: bv32, enc: bv32, mac: bv32, c: CipherInfo) {
    Meets(mkey, c.mkey) && Meets(auth, c.auth) && Meets(enc, c.enc) && Meets(mac, c.mac)
  }

  lemma AdmitsBoth(d: Criteria, a: Alias, c: CipherInfo)
    requires OneBitEach(c)
    ensures Admits(Both(d.mkey, a.mkey), Both(d.auth, a.auth), Both(d.enc, a.enc), Both(d.mac, a.mac), c) <==>
            Admits(d.mkey, d.auth, d.enc, d.mac, c) && Admits(a.mkey, a.auth, a.enc, a.mac, c)
  {
    hide OneBit, Meets, Both;
    OneBitSplits(d.mkey, a.mkey, c.mkey);
    OneBitSplits(d.auth, a.auth, c.auth);
    OneBitSplits(d.enc, a.enc, c.enc);
    OneBitSplits(d.mac, a.mac, c.mac);
  }

  lemma NarrowSelects(d: Criteria, a: Alias, c: CipherInfo)
    requires OneBitEach(c) && d.cipherId == 0
    ensures Selected(d.Narrow(a), c) <==> Selected(d, c) && Stands(a, c) && (d.minVersion != 0 ==> a.minVersion != 0)
  {
    hide Admits, OneBitEach, Selector.Matches, Criteria.Selects, Criteria.Narrow, Both;
    AdmitsBoth(d, a, c);
    AdmitsMatches(d, c);
    NarrowFields(d, a);
    AdmitsMatches(d.Narrow(a), c);
  }

  lemma NarrowFields(d: Criteria, a: Alias)
    ensures var e := d.Narrow(a);
            && e.mkey == Both(d.mkey, a.mkey) && e.auth == Both(d.auth, a.auth)
            && e.enc == Both(d.enc, a.enc) && e.mac == Both(d.mac, a.mac) && e.cipherId == d.cipherId
            && e.skip == (d.skip || (d.minVersion != 0 && d.minVersion != a.minVersion))
            && (!(d.minVersion != 0 && d.minVersion != a.minVersion) ==> e.minVersion == a.minVersion)
  {
  }

  lemma AdmitsMatches(d: Criteria, c: CipherInfo)
    requires d.cipherId == 0
    ensures d.Selects().Matches(c) <==>
      Admits(d.mkey, d.auth, d.enc, d.mac, c) && (d.minVersion != 0 ==> c.minVersion == d.minVersion)
  {
  }

  lemma {:induction false} NarrowAllSelects(d: Criteria, aliases: seq<Alias>, c: CipherInfo)
    requires OneBitEach(c) && d.cipherId == 0
    ensures Selected(NarrowAll(d, aliases), c) <==>
      && Selected(d, c)
      && (forall k | 0 <= k < |aliases| :: Stands(aliases[k], c) && (d.minVersion != 0 ==> aliases[k].minVersion != 0))
      && VersionsLast(aliases)
    decreases |aliases|
  {
    hide OneBitEach, Selected, Stands, Meets, Both;
    if aliases != [] {
      var a, others, e := aliases[0], aliases[1..], d.Narrow(aliases[0]);
      NarrowSelects(d, a, c);
      NarrowAllSelects(e, others, c);
      SkipIsForGood(e, others, c);
      if !e.skip {
        assert e.minVersion == a.minVersion;
        VersionsLastSplit(aliases);
      } else {
        assert !Selected(e, c) by { SkipIsForGood(e, [], c); }
      }
    }
  }

  lemma VersionsLastSplit(aliases: seq<Alias>)
    requires aliases != []
    ensures VersionsLast(aliases) <==>
      && VersionsLast(aliases[1..])
      && forall k | 0 <= k < |aliases[1..]| :: aliases[0].minVersion != 0 ==> aliases[1..][k].minVersion != 0
  {
    var others := aliases[1..];
    if VersionsLast(others)
      && forall k | 0 <= k < |others| :: aliases[0].minVersion != 0 ==> others[k].minVersion != 0 {
      forall k, l | 0 <= k < l < |aliases|
        ensures aliases[k].minVersion != 0 ==> aliases[l].minVersion != 0
      {
        assert aliases[l] == others[l - 1];
        if k > 0 {
          assert aliases[k] == others[k - 1];
        }
      }
    }
    if VersionsLast(aliases) {
      forall k | 0 <= k < |others|
        ensures aliases[0].minVersion != 0 ==> others[k].minVersion != 0
      {
        assert others[k] == aliases[k + 1];
      }
    }
  }

  lemma {:induction false} SkipIsForGood(d: Criteria, aliases: seq<Alias>, c: CipherInfo)
    ensures d.skip ==> !Selected(NarrowAll(d, aliases), c)
    decreases |aliases|
  {
    if aliases != [] {
      SkipIsForGood(d.Narrow(aliases[0]), aliases[1..], c);
    }
  }

  /** The aliases the names stand for. */
  ghost predicate AreAliases(tables: Tables, names: seq<string>, aliases: seq<Alias>) {
    |names| == |aliases| && forall k | 0 <= k < |names| :: AliasNamed(tables.aliases, names[k]) == Some(aliases[k])
  }

  lemma {:induction false} ResolveNarrows(tables: Tables, strict: bool, names: seq<string>, aliases: seq<Alias>,
        multi: bool, d: Criteria)
    requires AreAliases(tables, names, aliases)
    requires multi || |names| != 1
    ensures Resolve(tables, strict, names, multi, d) == Some(NarrowAll(d, aliases))
    decreases |names|
  {
    if names != [] {
      assert AreAliases(tables, names[1..], aliases[1..]);
      ResolveNarrows(tables, strict, names[1..], aliases[1..], true, d.Narrow(aliases[0]));
    }
  }

  /** A rule of two or more aliases selects exactly the ciphers all of them stand for if no
      alias without version comes after one with a version; otherwise it selects nothing. */
  lemma PlusIsIntersection(tables: Tables, strict: bool, names: seq<string>, aliases: seq<Alias>, c: CipherInfo)
    requires AreAliases(tables, names, aliases) && |names| > 1 && OneBitEach(c)
    requires c.mkey != 0 && c.auth != 0 && c.enc != 0 && c.mac != 0
    ensures var d := Resolve(tables, strict, names, false, EVERYTHING);
            d.Some? && (Selected(d.value, c) <==>
                VersionsLast(aliases) && forall k | 0 <= k < |aliases| :: Stands(aliases[k], c))
  {
    ResolveNarrows(tables, strict, names, aliases, false, EVERYTHING);
    NarrowAllSelects(EVERYTHING, aliases, c);
    EverythingSelects(c);
  }

  lemma EverythingSelects(c: CipherInfo)
    requires c.mkey != 0 && c.auth != 0 && c.enc != 0 && c.mac != 0
    ensures Selected(EVERYTHING, c)
  {
  }

  const AES := Alias("AES", 0xffff_ffff, 0xffff_ffff, 0x0000_001e, 0xffff_ffff, 0)
  const TLS12 := Alias("TLSv1.2", 0xffff_ffff, 0xffff_ffff, 0xffff_ffdf, 0xffff_ffff, 0x303)

  lemma NamesAreValid()
    ensures ValidNames(["AES", "TLSv1.2"]) && NamesText(["AES", "TLSv1.2"]) == "AES+TLSv1.2"
    ensures ValidNames(["TLSv1.2", "AES"]) && NamesText(["TLSv1.2", "AES"]) == "TLSv1.2+AES"
  {
  }

  /** The criteria that a text of two names gives. */
  lemma TextNarrows(tables: Tables, strict: bool, names: seq<string>, aliases: seq<Alias>)
    requires ValidNames(names) && |names| == 2 && AreAliases(tables, names, aliases)
    ensures ReadParts(tables, strict, NamesText(names), false, EVERYTHING) == Parts(NarrowAll(EVERYTHING, aliases), "")
  {
    hide ReadParts, NamesText, Resolve, NarrowAll;
    NamesRead(tables, strict, names, "", false, EVERYTHING);
    assert NamesText(names) + "" == NamesText(names);
    ResolveNarrows(tables, strict, names, aliases, false, EVERYTHING);
  }

  /** So the order of the names matters: `TLSv1.2+AES` selects nothing although
      `AES+TLSv1.2` selects ciphers. */
  lemma OrderOfNamesMatters(tables: Tables, strict: bool)
    requires AliasNamed(tables.aliases, "AES") == Some(AES) && AliasNamed(tables.aliases, "TLSv1.2") == Some(TLS12)
    ensures var c := CipherInfo("ECDHE-RSA-AES128-SHA256", 0x0300_c027, 2, 1, 2, 2, 0x303, 128);
            var right := ReadParts(tables, strict, "AES+TLSv1.2", false, EVERYTHING);
            var wrong := ReadParts(tables, strict, "TLSv1.2+AES", false, EVERYTHING);
            && right.Parts? && right.rest == "" && Selected(right.criteria, c)
            && wrong.Parts? && wrong.rest == "" && !Selected(wrong.criteria, c)
  {
    hide ReadParts, NamesText, ValidNames, Selected, NarrowAll;
    NamesAreValid();
    TextNarrows(tables, strict, ["AES", "TLSv1.2"], [AES, TLS12]);
    TextNarrows(tables, strict, ["TLSv1.2", "AES"], [TLS12, AES]);
    OneOrderSelects();
  }

  lemma OneOrderSelects()
    ensures var c := CipherInfo("ECDHE-RSA-AES128-SHA256", 0x0300_c027, 2, 1, 2, 2, 0x303, 128);
            Selected(NarrowAll(EVERYTHING, [AES, TLS12]), c) && !Selected(NarrowAll(EVERYTHING, [TLS12, AES]), c)
  {
    var c := CipherInfo("ECDHE-RSA-AES128-SHA256", 0x0300_c027, 2, 1, 2, 2, 0x303, 128);
    assert Stands(AES, c) && Stands(TLS12, c);
    EverythingSelects(c);
    NarrowAllSelects(EVERYTHING, [AES, TLS12], c);
    NarrowAllSelects(EVERYTHING, [TLS12, AES], c);
    assert !VersionsLast([TLS12, AES]) by {
      assert [TLS12, AES][0].minVersion != 0 && [TLS12, AES][1].minVersion == 0;
    }
  }
}
