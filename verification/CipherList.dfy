/** The doubly linked list of CIPHER_ORDER nodes, reordered while it is being walked. */
module CipherList {
  import opened CipherRules
  import opened CipherStrength

  class CipherOrder {
    const cipher: CipherInfo
    var active: bool
    var inGroup: bool
    var next: CipherOrder?
    var prev: CipherOrder?

    constructor (cipher: CipherInfo)
      ensures this.cipher == cipher && !active && !inGroup && next == null && prev == null
    {
      this.cipher := cipher;
      active, inGroup, next, prev := false, false, null, null;
    }

    ghost function Abs(): Entry
      reads this
    {
      Entry(cipher, active, inGroup)
    }
  }

  ghost function Entries(s: seq<CipherOrder>): (e: seq<Entry>)
    reads s
    ensures |e| == |s| && forall i | 0 <= i < |s| :: e[i] == s[i].Abs()
  {
    if s == [] then [] else [s[0].Abs()] + Entries(s[1..])
  }

  /** The element at an index, null outside the sequence. */
  ghost function At(nodes: seq<CipherOrder>, i: int): (n: CipherOrder?)
  {
    if 0 <= i < |nodes| then nodes[i] else null
  }

  ghost predicate Distinct(nodes: seq<CipherOrder>) {
    forall i, j | 0 <= i < j < |nodes| :: nodes[i] != nodes[j]
  }

  /** `nodes` are distinct and linked in both directions from `head` to `tail`. */
  ghost predicate Linked(nodes: seq<CipherOrder>, head: CipherOrder?, tail: CipherOrder?)
    reads nodes`next, nodes`prev
  {
    && Distinct(nodes)
    && head == At(nodes, 0) && tail == At(nodes, |nodes| - 1)
    && (forall i {:trigger nodes[i].next} | 0 <= i < |nodes| :: nodes[i].next == At(nodes, i + 1))
    && (forall i {:trigger nodes[i].prev} | 0 <= i < |nodes| :: nodes[i].prev == At(nodes, i - 1))
  }

  lemma OnlyAt(nodes: seq<CipherOrder>, k: int)
    requires Distinct(nodes)
    ensures forall j | 0 <= j < |nodes| :: nodes[j] == At(nodes, k) <==> j == k
  {
  }

  lemma Ends(nodes: seq<CipherOrder>, head: CipherOrder?, tail: CipherOrder?)
    requires Linked(nodes, head, tail)
    ensures Distinct(nodes) && head == At(nodes, 0) && tail == At(nodes, |nodes| - 1)
  {
  }

  ghost function Without<T>(s: seq<T>, k: nat): seq<T>
    requires k < |s|
  {
    s[..k] + s[k + 1..]
  }

  class CipherOrderList {
    var head: CipherOrder?
    var tail: CipherOrder?
    ghost var nodes: seq<CipherOrder>

    constructor (head: CipherOrder?, tail: CipherOrder?, ghost nodes: seq<CipherOrder>)
      requires Linked(nodes, head, tail)
      ensures Valid() && this.nodes == nodes
    {
      this.head, this.tail, this.nodes := head, tail, nodes;
    }

    ghost predicate Valid()
      reads this, nodes`next, nodes`prev
    {
      Linked(nodes, head, tail)
    }

    ghost function Nodes(): set<CipherOrder>
      reads this
    {
      set n | n in nodes
    }

    /** The list as a sequence of entries. */
    ghost function Contents(): seq<Entry>
      reads this, nodes
    {
      Entries(nodes)
    }

    /** Takes a node out; its own links are left as they were. This is the first half
        of both moves and of the removal of a killed cipher. */
    method Detach(curr: CipherOrder, ghost k: nat)
      requires Valid() && k < |nodes| && nodes[k] == curr
      modifies this, Nodes()`next, Nodes()`prev
      ensures Valid() && nodes == Without(old(nodes), k) && curr !in nodes
      ensures tail == if old(tail) == curr then old(curr.prev) else old(tail)
      ensures head == if old(head) == curr then old(curr.next) else old(head)
    {
      hide Distinct;
      ghost var s := nodes;
      OnlyAt(s, k);
      OnlyAt(s, k + 1);
      OnlyAt(s, k - 1);
      if curr == head {
        head := curr.next;
      }
      if curr == tail {
        tail := curr.prev;
      }
      if curr.prev != null {
        curr.prev.next := curr.next;
      }
      if curr.next != null {
        curr.next.prev := curr.prev;
      }
      Unlinked(s, k);
      nodes := Without(s, k);
    }

    /** Links a node that is not in the list behind its last node. */
    method LinkTail(curr: CipherOrder)
      requires Valid() && nodes != [] && curr !in nodes
      modifies this, Nodes()`next, curr`next, curr`prev
      ensures Valid() && nodes == old(nodes) + [curr] && tail == curr && head == old(head)
    {
      tail.next := curr;
      curr.prev := tail;
      curr.next := null;
      tail := curr;
      nodes := nodes + [curr];
    }

    /** Links a node that is not in the list before its first node. */
    method LinkHead(curr: CipherOrder)
      requires Valid() && nodes != [] && curr !in nodes
      modifies this, Nodes()`prev, curr`next, curr`prev
      ensures Valid() && nodes == [curr] + old(nodes) && head == curr && tail == old(tail)
    {
      head.prev := curr;
      curr.next := head;
      curr.prev := null;
      head := curr;
      nodes := [curr] + nodes;
    }

    /** `ll_append_tail` */
    method AppendTail(curr: CipherOrder, ghost k: nat)
      requires Valid() && k < |nodes| && nodes[k] == curr
      modifies this, Nodes()`next, Nodes()`prev
      ensures Valid() && nodes == Without(old(nodes), k) + [curr]
    {
      OnlyAt(nodes, |nodes| - 1);
      if curr == tail {
        assert nodes == Without(nodes, k) + [curr];
        return;
      }
      Detach(curr, k);
      LinkTail(curr);
    }

    /** `ll_append_head` */
    method AppendHead(curr: CipherOrder, ghost k: nat)
      requires Valid() && k < |nodes| && nodes[k] == curr
      modifies this, Nodes()`next, Nodes()`prev
      ensures Valid() && nodes == [curr] + Without(old(nodes), k)
    {
      OnlyAt(nodes, 0);
      if curr == head {
        assert nodes == [curr] + Without(nodes, k);
        return;
      }
      Detach(curr, k);
      LinkHead(curr);
    }

    /** The branch of `ssl_cipher_apply_rule` that kills a cipher. */
    method Remove(curr: CipherOrder, ghost k: nat)
      requires Valid() && k < |nodes| && nodes[k] == curr
      modifies this, Nodes()`next, Nodes()`prev, curr`active
      ensures Valid() && nodes == Without(old(nodes), k) && curr !in nodes
      ensures !curr.active && curr.next == null && curr.prev == null
    {
      Detach(curr, k);
      curr.active := false;
      curr.next := null;
      curr.prev := null;
    }

    /** What `ssl_cipher_apply_rule` does to a node it selects. */
    method Act(rule: Rule, inGroup: bool, curr: CipherOrder, ghost k: nat)
      requires Valid() && k < |nodes| && nodes[k] == curr
      modifies this, Nodes()`next, Nodes()`prev, curr
      ensures Valid()
      ensures nodes == match rule
                       case Add => Without(old(nodes), k) + [curr]
                       case Ord => Without(old(nodes), k) + [curr]
                       case Del => [curr] + Without(old(nodes), k)
                       case Kill => Without(old(nodes), k)
      ensures curr.Abs() == Change(rule, inGroup, old(curr.Abs()))
    {
      hide Linked, Distinct, Without;
      match rule {
        case Add =>
          AppendTail(curr, k);
          curr.active := true;
          curr.inGroup := inGroup;
        case Ord =>
          AppendTail(curr, k);
          curr.inGroup := false;
        case Del =>
          AppendHead(curr, k);
          curr.active := false;
          curr.inGroup := false;
        case Kill =>
          Remove(curr, k);
      }
    }

    /** The body of the forward walk: `curr` is the `i`-th node of the original order. */
    method VisitForward(sel: Selector, rule: Rule, inGroup: bool, curr: CipherOrder,
        ghost s: seq<CipherOrder>, ghost list: seq<Entry>, ghost h: seq<bool>, ghost i: nat)
      requires Valid() && !rule.Del? && Distinct(s) && i < |s| == |list| && curr == s[i]
      requires h == Hits(rule, sel, list) && nodes == Partway(rule, s, h, i)
      requires Halfway(rule, inGroup, s, list, h, 0, i)
      modifies this, Nodes()`next, Nodes()`prev, curr
      ensures Valid() && nodes == Partway(rule, s, h, i + 1)
      ensures Halfway(rule, inGroup, s, list, h, 0, i + 1)
      ensures forall n | n in nodes :: n in old(nodes)
    {
      hide Hit, Hits, Change, Select, Partway, Linked, Distinct;
      ghost var k := |Select(s[..i], h[..i], false)|;
      PartwayStep(rule, s, h, i);
      OnlyAt(s, i);
      assert curr.Abs() == list[i];
      if Hit(rule, sel, Entry(curr.cipher, curr.active, curr.inGroup)) {
        Act(rule, inGroup, curr, k);
      }
    }

    /** The forward walk of `ssl_cipher_apply_rule`. The node to visit next is read
        before the current one is moved, and the walk ends at the node that was last
        when it began, so that every node is visited once although visited nodes may
        be moved behind it. */
    method ApplyForward(sel: Selector, rule: Rule, inGroup: bool)
      requires Valid() && !rule.Del?
      modifies this, Nodes()
      ensures Valid() && nodes == Reordered(rule, old(nodes), Hits(rule, sel, old(Contents())))
      ensures Contents() == Apply(rule, sel, inGroup, old(Contents()))
    {
      hide Hits, Hit, Change, Select, Partway, Reordered, Apply, Entries, Linked, Distinct, Halfway;
      Ends(nodes, head, tail);
      ghost var s, list := nodes, Contents();
      ghost var h := Hits(rule, sel, list);
      ghost var i := 0;
      var curr: CipherOrder? := null;
      var next, last := head, tail;
      PartwayStart(rule, s, h);
      HalfwayStart(rule, inGroup, s, h, 0);
      OnlyAt(s, |s| - 1);
      while curr != last
        invariant 0 <= i <= |s| && curr == At(s, i - 1)
        invariant i < |s| ==> next == s[i]
        invariant Valid() && nodes == Partway(rule, s, h, i)
        invariant forall n | n in nodes :: n in s
        invariant Halfway(rule, inGroup, s, list, h, 0, i)
        decreases |s| - i
      {
        curr := next;
        NextNode(rule, s, h, i, head, tail);
        next := curr.next;
        VisitForward(sel, rule, inGroup, curr, s, list, h, i);
        i := i + 1;
      }
      PartwayEnd(rule, s, h);
      FinishWalk(rule, sel, inGroup, s, list);
    }

    /** The body of the backward walk: `curr` is the node before index `i` of the original order. */
    method VisitBackward(sel: Selector, inGroup: bool, curr: CipherOrder,
        ghost s: seq<CipherOrder>, ghost list: seq<Entry>, ghost h: seq<bool>, ghost i: nat)
      requires Valid() && Distinct(s) && 0 < i <= |s| == |list| && curr == s[i - 1]
      requires h == Hits(Del, sel, list) && nodes == PartwayBack(s, h, i)
      requires Halfway(Del, inGroup, s, list, h, i, |s|)
      modifies this, Nodes()`next, Nodes()`prev, curr
      ensures Valid() && nodes == PartwayBack(s, h, i - 1)
      ensures Halfway(Del, inGroup, s, list, h, i - 1, |s|)
      ensures forall n | n in nodes :: n in old(nodes)
    {
      hide Hit, Change, Select, PartwayBack, Linked;
      ghost var k := |Select(s[i..], h[i..], true)| + i - 1;
      PartwayBackStep(s, h, i);
      assert curr.Abs() == list[i - 1];
      if Hit(Del, sel, Entry(curr.cipher, curr.active, curr.inGroup)) {
        Act(Del, inGroup, curr, k);
      }
    }

    /** The backward walk of `ssl_cipher_apply_rule`, which keeps deleted ciphers in order. */
    method ApplyBackward(sel: Selector, inGroup: bool)
      requires Valid()
      modifies this, Nodes()
      ensures Valid() && nodes == Reordered(Del, old(nodes), Hits(Del, sel, old(Contents())))
      ensures Contents() == Apply(Del, sel, inGroup, old(Contents()))
    {
      hide Hits, Hit, Change, Select, PartwayBack, Reordered, Apply, Entries;
      ghost var s, list := nodes, Contents();
      ghost var h := Hits(Del, sel, list);
      ghost var i := |s|;
      var curr: CipherOrder? := null;
      var next, last := tail, head;
      PartwayBackEnds(s, h);
      OnlyAt(s, 0);
      while curr != last
        invariant 0 <= i <= |s| && curr == At(s, i)
        invariant i > 0 ==> next == s[i - 1]
        invariant Valid() && nodes == PartwayBack(s, h, i)
        invariant forall n | n in nodes :: n in s
        invariant Halfway(Del, inGroup, s, list, h, i, |s|)
        decreases i
      {
        curr := next;
        PreviousNode(s, h, i, head, tail);
        next := curr.prev;
        VisitBackward(sel, inGroup, curr, s, list, h, i);
        i := i - 1;
      }
      FinishWalk(Del, sel, inGroup, s, list);
    }

    /** `ssl_cipher_apply_rule` */
    method ApplyRule(sel: Selector, rule: Rule, inGroup: bool)
      requires Valid()
      modifies this, Nodes()
      ensures Valid() && forall n | n in nodes :: n in old(nodes)
      ensures Contents() == Apply(rule, sel, inGroup, old(Contents()))
    {
      hide Linked, Hit, Change, Apply, Entries, Select, Hits, Reordered;
      if sel.MatchesNothing() {
        NothingApplies(rule, sel, inGroup, Contents());
        return;
      }
      ReorderedWithin(rule, nodes, Hits(rule, sel, Contents()));
      if rule == Del {
        ApplyBackward(sel, inGroup);
      } else {
        ApplyForward(sel, rule, inGroup);
      }
    }

    /** The first pass of `ssl_cipher_strength_sort`. */
    method MaxStrength() returns (max: nat)
      requires Valid()
      ensures max == Max(Contents())
    {
      hide Distinct;
      ghost var list, i := Contents(), 0;
      var curr := head;
      max := 0;
      while curr != null
        invariant 0 <= i <= |nodes| && curr == At(nodes, i)
        invariant max == Max(list[..i])
        decreases |nodes| - i
      {
        assert list[..i + 1][..i] == list[..i] && list[i] == curr.Abs();
        if curr.active && curr.cipher.bits > max {
          max := curr.cipher.bits;
        }
        curr := curr.next;
        i := i + 1;
      }
      assert list[..i] == list;
    }

    /** The second pass: how many active ciphers there are of each strength. */
    method CountUses(max: nat) returns (uses: array<nat>)
      requires Valid() && max == Max(Contents())
      ensures fresh(uses) && uses.Length == max + 1
      ensures forall b | 0 <= b <= max :: uses[b] == |OfStrength(Contents(), b)|
    {
      hide Distinct, Max, OfStrength;
      ghost var list, i := Contents(), 0;
      uses := new nat[max + 1](_ => 0);
      NoneOfNothing();
      var curr := head;
      while curr != null
        invariant 0 <= i <= |nodes| && curr == At(nodes, i) && fresh(uses)
        invariant forall b | 0 <= b <= max :: uses[b] == |OfStrength(list[..i], b)|
        decreases |nodes| - i
      {
        OneMore(list, i);
        assert list[i] == curr.Abs() && list[i] in list;
        if curr.active {
          uses[curr.cipher.bits] := uses[curr.cipher.bits] + 1;
        }
        curr := curr.next;
        i := i + 1;
      }
      assert list[..i] == list;
    }

    /** `ssl_cipher_strength_sort` */
    method StrengthSort()
      requires Valid()
      modifies this, Nodes()
      ensures Valid() && forall n | n in nodes :: n in old(nodes)
      ensures Contents() == Sorting(old(Contents()), 0)
    {
      hide Linked, Sorting, Max, OfStrength, Apply, Entries;
      ghost var s, list := nodes, Contents();
      var max := MaxStrength();
      var uses := CountUses(max);
      SortingStart(list);
      var i: int := max;
      while i >= 0
        invariant -1 <= i <= max
        invariant Valid() && (forall n | n in nodes :: n in s)
        invariant Contents() == Sorting(list, i + 1)
        invariant forall b | 0 <= b <= max :: uses[b] == |OfStrength(list, b)|
      {
        if uses[i] > 0 {
          SortingStep(list, i);
          ApplyRule(StrengthSelector(i), Ord, false);
        } else {
          UnusedStep(list, i);
        }
        i := i - 1;
      }
    }
  }

  lemma NoneOfNothing()
    ensures forall bits: nat :: OfStrength([], bits) == []
  {
  }

  ghost function One(e: Entry, bits: nat): nat {
    if e.active && e.cipher.bits == bits then 1 else 0
  }

  lemma OneMore(list: seq<Entry>, i: nat)
    requires i < |list|
    ensures forall bits: nat :: |OfStrength(list[..i + 1], bits)| == |OfStrength(list[..i], bits)| + One(list[i], bits)
  {
    assert list[..i + 1] == list[..i] + [list[i]];
    forall bits: nat
      ensures |OfStrength(list[..i + 1], bits)| == |OfStrength(list[..i], bits)| + One(list[i], bits)
    {
      assert [list[i]][1..] == [];
      OfStrengthJoined(list[..i], [list[i]], bits);
    }
  }

  /** The node behind the one being visited is still its successor of the original order. */
  lemma NextNode(rule: Rule, s: seq<CipherOrder>, h: seq<bool>, i: nat, head: CipherOrder?, tail: CipherOrder?)
    requires |s| == |h| && i < |s| && Linked(Partway(rule, s, h, i), head, tail)
    ensures i + 1 < |s| ==> s[i].next == s[i + 1]
  {
    hide Partway, Select;
    PartwayStep(rule, s, h, i);
    var p, k := Partway(rule, s, h, i), |Select(s[..i], h[..i], false)|;
    assert p[k].next == At(p, k + 1);
  }

  /** The nodes in their new order. */
  ghost function Reordered(rule: Rule, s: seq<CipherOrder>, h: seq<bool>): seq<CipherOrder>
    requires |s| == |h|
  {
    match rule
    case Add => Select(s, h, false) + Select(s, h, true)
    case Ord => Select(s, h, false) + Select(s, h, true)
    case Del => Select(s, h, true) + Select(s, h, false)
    case Kill => Select(s, h, false)
  }

  /** The list when the forward walk has visited the first `i` nodes. */
  ghost function Partway(rule: Rule, s: seq<CipherOrder>, h: seq<bool>, i: nat): seq<CipherOrder>
    requires |s| == |h| && i <= |s|
  {
    Select(s[..i], h[..i], false) + s[i..] + if rule.Kill? then [] else Select(s[..i], h[..i], true)
  }

  /** The list when the backward walk has visited the nodes from index `i` on. */
  ghost function PartwayBack(s: seq<CipherOrder>, h: seq<bool>, i: nat): seq<CipherOrder>
    requires |s| == |h| && i <= |s|
  {
    Select(s[i..], h[i..], true) + s[..i] + Select(s[i..], h[i..], false)
  }

  lemma PartwayBackEnds(s: seq<CipherOrder>, h: seq<bool>)
    requires |s| == |h|
    ensures PartwayBack(s, h, |s|) == s
    ensures PartwayBack(s, h, 0) == Reordered(Del, s, h)
  {
    assert s[..|s|] == s && s[|s|..] == [] && h[|s|..] == [];
    assert s[0..] == s && h[0..] == h && s[..0] == [];
  }

  lemma PartwayBackStep(s: seq<CipherOrder>, h: seq<bool>, i: nat)
    requires |s| == |h| && 0 < i <= |s|
    ensures var p, k := PartwayBack(s, h, i), |Select(s[i..], h[i..], true)| + i - 1;
            && k < |p| && p[k] == s[i - 1] && (i > 1 ==> At(p, k - 1) == s[i - 2])
            && PartwayBack(s, h, i - 1) == if h[i - 1] then [s[i - 1]] + Without(p, k) else p
  {
    hide Select;
    SelectNext(s, h, i - 1, false);
    SelectNext(s, h, i - 1, true);
    var a, b, r := Select(s[i..], h[i..], true), Select(s[i..], h[i..], false), s[..i - 1];
    assert s[..i] == r + [s[i - 1]];
    if h[i - 1] {
      assert [] + b == b;
    } else {
      assert [] + a == a;
    }
    TakeFromBack(a, r, s[i - 1], b);
  }

  lemma TakeFromBack(a: seq<CipherOrder>, r: seq<CipherOrder>, x: CipherOrder, b: seq<CipherOrder>)
    ensures var p, k := a + (r + [x]) + b, |a| + |r|;
            && p[k] == x && [x] + Without(p, k) == ([x] + a) + r + b
            && (r != [] ==> p[k - 1] == r[|r| - 1])
            && p == a + r + ([x] + b)
  {
  }

  /** The node before the one being visited is still its predecessor of the original order. */
  lemma PreviousNode(s: seq<CipherOrder>, h: seq<bool>, i: nat, head: CipherOrder?, tail: CipherOrder?)
    requires |s| == |h| && 0 < i <= |s| && Linked(PartwayBack(s, h, i), head, tail)
    ensures i > 1 ==> s[i - 1].prev == s[i - 2]
  {
    hide PartwayBack, Select;
    PartwayBackStep(s, h, i);
    var p, k := PartwayBack(s, h, i), |Select(s[i..], h[i..], true)| + i - 1;
    assert p[k].prev == At(p, k - 1);
  }

  lemma ReorderedWithin(rule: Rule, s: seq<CipherOrder>, h: seq<bool>)
    requires |s| == |h|
    ensures forall n | n in Reordered(rule, s, h) :: n in s
  {
    forall n | n in Reordered(rule, s, h)
      ensures n in s
    {
      var b := n in Select(s, h, true);
      SelectMember(s, h, b, n);
    }
  }

  /** The selected nodes from index `lo` up to `hi` have been changed, no others have. */
  ghost predicate Halfway(rule: Rule, inGroup: bool, s: seq<CipherOrder>, list: seq<Entry>, h: seq<bool>, lo: int,
        hi: int)
    requires |s| == |list| == |h|
    reads s
  {
    forall j | 0 <= j < |s| :: s[j].Abs() == if lo <= j < hi && h[j] then Change(rule, inGroup, list[j]) else list[j]
  }

  lemma HalfwayStart(rule: Rule, inGroup: bool, s: seq<CipherOrder>, h: seq<bool>, at: int)
    requires |s| == |h|
    ensures Halfway(rule, inGroup, s, Entries(s), h, at, at)
  {
  }

  lemma {:induction false} EntriesOfSelect(s: seq<CipherOrder>, h: seq<bool>, b: bool)
    requires |s| == |h|
    ensures Entries(Select(s, h, b)) == Select(Entries(s), h, b)
  {
    if s != [] {
      EntriesOfSelect(s[1..], h[1..], b);
      EntriesOfJoin(if h[0] == b then [s[0]] else [], Select(s[1..], h[1..], b));
    }
  }

  lemma EntriesOfJoin(s: seq<CipherOrder>, t: seq<CipherOrder>)
    ensures Entries(s + t) == Entries(s) + Entries(t)
  {
  }

  lemma FinishWalk(rule: Rule, sel: Selector, inGroup: bool, s: seq<CipherOrder>, list: seq<Entry>)
    requires |s| == |list| && Halfway(rule, inGroup, s, list, Hits(rule, sel, list), 0, |s|)
    ensures Entries(Reordered(rule, s, Hits(rule, sel, list))) == Apply(rule, sel, inGroup, list)
  {
    var h := Hits(rule, sel, list);
    EntriesOfSelect(s, h, false);
    EntriesOfSelect(s, h, true);
    EntriesOfJoin(Select(s, h, false), Select(s, h, true));
    EntriesOfJoin(Select(s, h, true), Select(s, h, false));
    SelectChanged(rule, inGroup, list, Entries(s), h);
  }

  lemma PartwayStart(rule: Rule, s: seq<CipherOrder>, h: seq<bool>)
    requires |s| == |h|
    ensures Partway(rule, s, h, 0) == s
  {
  }

  lemma PartwayEnd(rule: Rule, s: seq<CipherOrder>, h: seq<bool>)
    requires |s| == |h| && !rule.Del?
    ensures Partway(rule, s, h, |s|) == Reordered(rule, s, h)
  {
    assert s[..|s|] == s && h[..|h|] == h && s[|s|..] == [];
  }

  lemma TakeFromMiddle(a: seq<CipherOrder>, x: CipherOrder, r: seq<CipherOrder>, b: seq<CipherOrder>)
    ensures var p := a + ([x] + r) + b;
            && p[|a|] == x && Without(p, |a|) == a + r + b
            && (r != [] ==> p[|a| + 1] == r[0])
            && p == (a + [x]) + r + b
            && Without(p, |a|) + [x] == a + r + (b + [x])
  {
  }

  /** Where the walk stands: the node to visit is behind the unselected ones before it,
      and the node after it is the next one of the original order. */
  lemma PartwayStep(rule: Rule, s: seq<CipherOrder>, h: seq<bool>, i: nat)
    requires |s| == |h| && i < |s|
    ensures var p, k := Partway(rule, s, h, i), |Select(s[..i], h[..i], false)|;
            && k < |p| && p[k] == s[i] && (i + 1 < |s| ==> At(p, k + 1) == s[i + 1])
            && Partway(rule, s, h, i + 1) ==
               if !h[i] then p else if rule.Kill? then Without(p, k) else Without(p, k) + [s[i]]
  {
    hide Select, Without;
    SelectNext(s, h, i, false);
    SelectNext(s, h, i, true);
    var a, b, r := Select(s[..i], h[..i], false), Select(s[..i], h[..i], true), s[i + 1..];
    assert s[i..] == [s[i]] + r;
    TakeFromMiddle(a, s[i], r, if rule.Kill? then [] else b);
    if h[i] {
      assert a + [] == a;
    } else {
      assert b + [] == b;
    }
  }

  /** The nodes left when one is taken out, by index. */
  lemma WithoutAt<T>(s: seq<T>, k: nat)
    requires k < |s|
    ensures var t := Without(s, k); |t| == |s| - 1 && forall i | 0 <= i < |t| :: t[i] == s[if i < k then i else i + 1]
  {
  }

  lemma WithoutDistinct(s: seq<CipherOrder>, k: nat)
    requires Distinct(s) && k < |s|
    ensures Distinct(Without(s, k)) && s[k] !in Without(s, k)
  {
    hide Without;
    WithoutAt(s, k);
  }

  lemma Unlinked(s: seq<CipherOrder>, k: nat)
    requires Distinct(s) && k < |s|
    requires forall j {:trigger s[j].next} | 0 <= j < |s| && j != k ::
      s[j].next == At(s, if j == k - 1 then k + 1 else j + 1)
    requires forall j {:trigger s[j].prev} | 0 <= j < |s| && j != k ::
      s[j].prev == At(s, if j == k + 1 then k - 1 else j - 1)
    ensures var t := Without(s, k);
            s[k] !in t && Linked(t, At(s, if k == 0 then 1 else 0), At(s, if k == |s| - 1 then k - 1 else |s| - 1))
  {
    hide Without, Distinct;
    var t := Without(s, k);
    WithoutDistinct(s, k);
    WithoutAt(s, k);
    forall i {:trigger t[i].next} | 0 <= i < |t|
      ensures t[i].next == At(t, i + 1)
    {
      assert t[i] == s[if i < k then i else i + 1];
    }
    forall i {:trigger t[i].prev} | 0 <= i < |t|
      ensures t[i].prev == At(t, i - 1)
    {
      assert t[i] == s[if i < k then i else i + 1];
    }
  }
}
