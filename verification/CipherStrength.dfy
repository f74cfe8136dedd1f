/** The order `ssl_cipher_strength_sort` leaves, and why it is a stable sort. */
module CipherStrength {
  import opened CipherRules

  /** The active entries of one strength, in order. */
  ghost function OfStrength(list: seq<Entry>, bits: nat): (r: seq<Entry>)
  {
    if list == [] then []
    else (if list[0].active && list[0].cipher.bits == bits then [list[0]] else []) + OfStrength(list[1..], bits)
  }

  /** The entries that are inactive or weaker than `bits`, in order. */
  ghost function Weaker(list: seq<Entry>, bits: nat): (r: seq<Entry>)
  {
    if list == [] then []
    else (if list[0].active && list[0].cipher.bits >= bits then [] else [list[0]]) + Weaker(list[1..], bits)
  }

  ghost function Inactive(list: seq<Entry>): (r: seq<Entry>)
  {
    Weaker(list, 0)
  }

  ghost function Max(list: seq<Entry>): (m: nat)
    ensures forall e | e in list && e.active :: e.cipher.bits <= m
  {
    if list == [] then 0
    else
      var last, m := list[|list| - 1], Max(list[..|list| - 1]);
      if last.active && last.cipher.bits > m then last.cipher.bits else m
  }

  ghost function Ungrouped(list: seq<Entry>): (r: seq<Entry>) {
    ChangeAll(Ord, false, list)
  }

  /** The active entries from the strongest down to `low` bits. */
  ghost function Descending(list: seq<Entry>, high: nat, low: nat): (r: seq<Entry>)
    decreases high + 1 - low
  {
    if low > high then [] else Descending(list, high, low + 1) + Ungrouped(OfStrength(list, low))
  }

  /** The list when all strengths from `low` up have been moved to the end. */
  ghost function Sorting(list: seq<Entry>, low: nat): (r: seq<Entry>) {
    Weaker(list, low) + Descending(list, Max(list), low)
  }

  function StrengthSelector(bits: nat): Selector {
    Selector(0, 0, 0, 0, 0, 0, bits)
  }

  lemma {:induction false} WeakerThanAll(list: seq<Entry>, bits: nat)
    requires forall e | e in list && e.active :: e.cipher.bits < bits
    ensures Weaker(list, bits) == list && OfStrength(list, bits) == []
  {
    if list != [] {
      WeakerThanAll(list[1..], bits);
    }
  }

  lemma {:induction false} WeakerSplits(list: seq<Entry>, bits: nat)
    ensures var sel, w := StrengthSelector(bits), Weaker(list, bits + 1);
            && Select(w, Hits(Ord, sel, w), false) == Weaker(list, bits)
            && Select(w, Hits(Ord, sel, w), true) == OfStrength(list, bits)
  {
    if list != [] {
      WeakerSplits(list[1..], bits);
      var sel, w := StrengthSelector(bits), Weaker(list, bits + 1);
      if !(list[0].active && list[0].cipher.bits >= bits + 1) {
        assert w[1..] == Weaker(list[1..], bits + 1);
        assert Hits(Ord, sel, w)[1..] == Hits(Ord, sel, w[1..]);
        assert w[0] == list[0];
      } else {
        assert w == Weaker(list[1..], bits + 1);
      }
    }
  }

  lemma {:induction false} OfStrengthMembers(list: seq<Entry>, bits: nat)
    ensures forall e | e in OfStrength(list, bits) :: e.active && e.cipher.bits == bits
  {
    if list != [] {
      OfStrengthMembers(list[1..], bits);
    }
  }

  lemma {:induction false} DescendingMembers(list: seq<Entry>, high: nat, low: nat)
    ensures forall e | e in Descending(list, high, low) :: e.active && low <= e.cipher.bits <= high
    decreases high + 1 - low
  {
    if low <= high {
      DescendingMembers(list, high, low + 1);
      OfStrengthMembers(list, low);
    }
  }

  lemma NoneOfStrength(list: seq<Entry>, bits: nat)
    requires forall e | e in list :: e.cipher.bits != bits
    ensures Select(list, Hits(Ord, StrengthSelector(bits), list), false) == list
    ensures Select(list, Hits(Ord, StrengthSelector(bits), list), true) == []
  {
    SelectAll(list, Hits(Ord, StrengthSelector(bits), list), false);
  }

  /** One rule of the loop moves one strength. */
  lemma SortingStep(list: seq<Entry>, bits: nat)
    requires bits <= Max(list)
    ensures Apply(Ord, StrengthSelector(bits), false, Sorting(list, bits + 1)) == Sorting(list, bits)
  {
    hide Select, Weaker, Hit, OfStrength;
    var sel, w, d := StrengthSelector(bits), Weaker(list, bits + 1), Descending(list, Max(list), bits + 1);
    WeakerSplits(list, bits);
    DescendingMembers(list, Max(list), bits + 1);
    NoneOfStrength(d, bits);
    assert Hits(Ord, sel, w + d) == Hits(Ord, sel, w) + Hits(Ord, sel, d);
    SelectAppend(w, Hits(Ord, sel, w), d, Hits(Ord, sel, d), false);
    SelectAppend(w, Hits(Ord, sel, w), d, Hits(Ord, sel, d), true);
  }

  /** A strength that is not used needs no rule. */
  lemma {:induction false} UnusedWeaker(list: seq<Entry>, bits: nat)
    requires OfStrength(list, bits) == []
    ensures Weaker(list, bits + 1) == Weaker(list, bits)
  {
    if list != [] {
      UnusedWeaker(list[1..], bits);
    }
  }

  lemma UnusedStep(list: seq<Entry>, bits: nat)
    requires bits <= Max(list) && OfStrength(list, bits) == []
    ensures Sorting(list, bits + 1) == Sorting(list, bits)
  {
    UnusedWeaker(list, bits);
  }

  lemma SortingStart(list: seq<Entry>)
    ensures Sorting(list, Max(list) + 1) == list
  {
    WeakerThanAll(list, Max(list) + 1);
  }

  lemma {:induction false} OfStrengthJoined(s: seq<Entry>, t: seq<Entry>, bits: nat)
    ensures OfStrength(s + t, bits) == OfStrength(s, bits) + OfStrength(t, bits)
  {
    if s == [] {
      assert s + t == t;
    } else {
      assert (s + t)[1..] == s[1..] + t;
      OfStrengthJoined(s[1..], t, bits);
      var first := if s[0].active && s[0].cipher.bits == bits then [s[0]] else [];
      assert first + (OfStrength(s[1..], bits) + OfStrength(t, bits))
          == (first + OfStrength(s[1..], bits)) + OfStrength(t, bits);
    }
  }

  lemma {:induction false} WeakerJoined(s: seq<Entry>, t: seq<Entry>, bits: nat)
    ensures Weaker(s + t, bits) == Weaker(s, bits) + Weaker(t, bits)
  {
    if s == [] {
      assert s + t == t;
    } else {
      assert (s + t)[1..] == s[1..] + t;
      WeakerJoined(s[1..], t, bits);
      var first := if s[0].active && s[0].cipher.bits >= bits then [] else [s[0]];
      assert first + (Weaker(s[1..], bits) + Weaker(t, bits)) == (first + Weaker(s[1..], bits)) + Weaker(t, bits);
    }
  }

  /** Picking one strength of a list whose active entries all have, or all lack, it. */
  lemma {:induction false} OfOneStrength(list: seq<Entry>, bits: nat, same: bool)
    requires forall e | e in list ::
      if same then e.active && e.cipher.bits == bits else e.active ==> e.cipher.bits != bits
    ensures OfStrength(list, bits) == if same then list else []
  {
    if list != [] {
      OfOneStrength(list[1..], bits, same);
    }
  }

  lemma OfNothing(bits: nat)
    ensures OfStrength([], bits) == []
  {
  }

  lemma {:induction false} DescendingKeeps(list: seq<Entry>, high: nat, low: nat, bits: nat)
    ensures OfStrength(Descending(list, high, low), bits) ==
      if low <= bits <= high then Ungrouped(OfStrength(list, bits)) else []
    decreases high + 1 - low
  {
    hide OfStrength;
    OfNothing(bits);
    if low <= high {
      DescendingKeeps(list, high, low + 1, bits);
      OfStrengthMembers(list, low);
      OfStrengthJoined(Descending(list, high, low + 1), Ungrouped(OfStrength(list, low)), bits);
      OfOneStrength(Ungrouped(OfStrength(list, low)), bits, low == bits);
    }
  }

  ghost predicate StrongestFirst(list: seq<Entry>) {
    forall i, j | 0 <= i < j < |list| :: list[i].cipher.bits >= list[j].cipher.bits
  }

  lemma {:induction false} DescendingSorted(list: seq<Entry>, high: nat, low: nat)
    ensures StrongestFirst(Descending(list, high, low))
    decreases high + 1 - low
  {
    if low <= high {
      var d: seq<Entry>, l: seq<Entry> := Descending(list, high, low + 1), Ungrouped(OfStrength(list, low));
      DescendingSorted(list, high, low + 1);
      DescendingMembers(list, high, low + 1);
      OfStrengthMembers(list, low);
      forall i: nat, j: nat | i < j < |d + l|
        ensures (d + l)[i].cipher.bits >= (d + l)[j].cipher.bits
      {
        assert j < |d| ==> d[i] in d && d[j] in d;
        assert i < |d| ==> d[i] in d;
        assert j >= |d| ==> l[j - |d|].cipher.bits == low;
        assert i >= |d| ==> l[i - |d|].cipher.bits == low;
      }
    }
  }

  lemma {:induction false} InactiveMembers(list: seq<Entry>)
    ensures forall e | e in Inactive(list) :: !e.active
  {
    if list != [] {
      InactiveMembers(list[1..]);
    }
  }

  lemma {:induction false} AllInactive(list: seq<Entry>, active: bool)
    requires forall e | e in list :: e.active == active
    ensures Inactive(list) == if active then [] else list
  {
    if list != [] {
      AllInactive(list[1..], active);
    }
  }

  /** `@STRENGTH`: the inactive entries stay in front in their order; behind them stand
      the active ones, strongest first; and ciphers of one strength keep their order and
      lose only their group flags. */
  lemma StableByStrength(list: seq<Entry>)
    ensures var r, n := Sorting(list, 0), |Inactive(list)|;
            && n <= |r| && (forall e | e in r[..n] :: !e.active) && (forall e | e in r[n..] :: e.active && !e.inGroup)
            && Inactive(r) == Inactive(list)
            && StrongestFirst(r[n..])
    ensures forall bits: nat :: OfStrength(Sorting(list, 0), bits) == Ungrouped(OfStrength(list, bits))
  {
    var w, d := Inactive(list), Descending(list, Max(list), 0);
    InactiveMembers(list);
    DescendingMembers(list, Max(list), 0);
    DescendingSorted(list, Max(list), 0);
    DescendingUngrouped(list, Max(list), 0);
    assert (w + d)[..|w|] == w && (w + d)[|w|..] == d;
    AllInactive(w, false);
    AllInactive(d, true);
    WeakerJoined(w, d, 0);
    forall bits: nat
      ensures OfStrength(w + d, bits) == Ungrouped(OfStrength(list, bits))
    {
      OfStrengthJoined(w, d, bits);
      OfOneStrength(w, bits, false);
      DescendingKeeps(list, Max(list), 0, bits);
      if bits > Max(list) {
        OfOneStrength(list, bits, false);
      }
    }
  }

  lemma {:induction false} DescendingUngrouped(list: seq<Entry>, high: nat, low: nat)
    ensures forall e | e in Descending(list, high, low) :: !e.inGroup
    decreases high + 1 - low
  {
    if low <= high {
      DescendingUngrouped(list, high, low + 1);
    }
  }
}
