/** The parser of sessions does not look at what follows the integer in the time and timeout
    fields. */
module SessionTrailing {
  import opened Bytes
  import opened Der
  import opened SessionDer
  import opened SessionRoundTrip

  /** The contents of some fields added to what has been found. */
  function With(m: Found, s: Session, forTicket: bool, fields: seq<Field>): Found {
    if fields == [] then m
    else
      var rest := With(m, s, forTicket, fields[1..]);
      match ContentOf(s, forTicket, fields[0])
      case None => rest
      case Some(c) => rest[fields[0] := c]
  }

  /** Reading fields that are there, in front of anything. */
  lemma {:induction false} PrefixRead(s: Session, forTicket: bool, fields: seq<Field>, k: nat, tail: seq<byte>)
    requires k <= |fields| && forall i | 0 <= i < k :: Required(fields[i])
    requires |Write(s, forTicket, fields[..k])| <= MAX_LENGTH
    ensures ReadFields(Write(s, forTicket, fields[..k]) + tail, fields) ==
      match ReadFields(tail, fields[k..])
      case None => None
      case Some(m) => Some(With(m, s, forTicket, fields[..k]))
    decreases k
  {
    hide ContentOf, TagOf, Required, Element;
    if k == 0 {
      assert fields[..0] == [] && fields[0..] == fields && [] + tail == tail;
    } else {
      var f, written := fields[0], Write(s, forTicket, fields[..k][1..]);
      assert fields[..k][1..] == fields[1..][..k - 1] && fields[1..][k - 1..] == fields[k..];
      RequiredPresent(s, forTicket, f);
      var c := ContentOf(s, forTicket, f).value;
      assert Write(s, forTicket, fields[..k]) == Element(TagOf(f), c) + written;
      ContentFits(s, forTicket, fields[..k], f);
      PrefixRead(s, forTicket, fields[1..], k - 1, tail);
      PresentRead(c, written + tail, fields);
      assert Element(TagOf(f), c) + written + tail == Element(TagOf(f), c) + (written + tail);
    }
  }

  lemma {:induction false} WithFinds(m: Found, s: Session, forTicket: bool, fields: seq<Field>, g: Field)
    requires forall f | f in fields :: Required(f)
    ensures Lookup(With(m, s, forTicket, fields), g) == if g in fields then ContentOf(s, forTicket, g) else Lookup(m, g)
  {
    hide ContentOf, Required;
    if fields != [] {
      WithFinds(m, s, forTicket, fields[1..], g);
      RequiredPresent(s, forTicket, fields[0]);
    }
  }

  /** The fields whose contents may go on after their integer. */
  predicate Loose(f: Field) {
    f.FTime? || f.FTimeout?
  }

  /** The fields of a session, one of them with octets behind its contents. */
  function PaddedAt(s: Session, forTicket: bool, fields: seq<Field>, k: nat, junk: seq<byte>): (body: seq<byte>)
    requires k < |fields| && Required(fields[k])
  {
    RequiredPresent(s, forTicket, fields[k]);
    var c := ContentOf(s, forTicket, fields[k]).value;
    Write(s, forTicket, fields[..k]) + (Element(TagOf(fields[k]), c + junk) + Write(s, forTicket, fields[k + 1..]))
  }

  function IndexOf(f: Field): (k: nat)
    requires Loose(f)
    ensures k < |FIELDS| && FIELDS[k] == f && Required(f)
  {
    if f.FTime? then 5 else 6
  }

  /** The output for a session with octets behind the integer of its time or timeout. */
  function Padded(s: Session, forTicket: bool, f: Field, junk: seq<byte>): (body: seq<byte>)
    requires Loose(f)
  {
    PaddedAt(s, forTicket, FIELDS, IndexOf(f), junk)
  }

  lemma FieldsBefore(f: Field)
    requires Loose(f)
    ensures forall i | 0 <= i < IndexOf(f) :: Required(FIELDS[i])
  {
  }

  lemma {:induction false} RestSeparable(fields: seq<Field>, k: nat)
    requires k <= |fields| && Separable(fields)
    ensures Separable(fields[k..])
    decreases k
  {
    hide RankOf;
    if k == 0 {
      assert fields[0..] == fields;
    } else {
      TailSeparable(fields);
      RestSeparable(fields[1..], k - 1);
      assert fields[1..][k - 1..] == fields[k..];
    }
  }

  /** What is found in it: the contents with the octets behind, and everything else. */
  lemma PaddedRead(s: Session, forTicket: bool, fields: seq<Field>, k: nat, junk: seq<byte>)
    requires Separable(fields) && k < |fields| && Required(fields[k]) && forall i | 0 <= i < k :: Required(fields[i])
    requires |PaddedAt(s, forTicket, fields, k, junk)| <= MAX_LENGTH
    ensures var r, f := ReadFields(PaddedAt(s, forTicket, fields, k, junk), fields), fields[k];
            && r.Some? && f in r.value && ContentOf(s, forTicket, f).Some?
            && r.value[f] == ContentOf(s, forTicket, f).value + junk
            && Finds(r.value[f := ContentOf(s, forTicket, f).value], s, forTicket, fields)
  {
    hide ContentOf, TagOf, Element, RankOf, Write, ReadFields, Required, With, Finds, Separable;
    var f, before, after := fields[k], fields[..k], fields[k + 1..];
    RequiredPresent(s, forTicket, f);
    var c, rest := ContentOf(s, forTicket, f).value, Write(s, forTicket, after);
    RestSeparable(fields, k + 1);
    FieldsRead(s, forTicket, after);
    var m := ReadFields(rest, after).value;
    assert fields[k..][0] == f && fields[k..][1..] == after;
    LongerThanContent(TagOf(f), c + junk);
    PresentRead(c + junk, rest, fields[k..]);
    PrefixRead(s, forTicket, fields, k, Element(TagOf(f), c + junk) + rest);
    NotBefore(fields, k);
    WithFinds(m[f := c + junk], s, forTicket, before, f);
    PaddedFinds(s, forTicket, fields, k, m, c, junk);
  }

  lemma NotBefore(fields: seq<Field>, k: nat)
    requires Separable(fields) && k < |fields|
    ensures fields[k] !in fields[..k]
  {
    hide RankOf;
    forall i | 0 <= i < k
      ensures fields[..k][i] != fields[k]
    {
      assert RankOf(fields[i]) < RankOf(fields[k]);
    }
  }

  lemma PaddedFinds(s: Session, forTicket: bool, fields: seq<Field>, k: nat, m: Found, c: seq<byte>, junk: seq<byte>)
    requires k < |fields| && ContentOf(s, forTicket, fields[k]) == Some(c)
    requires forall f | f in fields[..k] :: Required(f)
    requires Finds(m, s, forTicket, fields[k + 1..])
    ensures Finds(With(m[fields[k] := c + junk], s, forTicket, fields[..k])[fields[k] := c], s, forTicket, fields)
  {
    hide ContentOf, Required, With;
    var f := fields[k];
    var r := With(m[f := c + junk], s, forTicket, fields[..k])[f := c];
    forall g
      ensures Lookup(r, g) == if g in fields then ContentOf(s, forTicket, g) else None
    {
      WithFinds(m[f := c + junk], s, forTicket, fields[..k], g);
      InSomePart(fields, g, k);
    }
  }

  lemma LongerThanContent(tag: byte, c: seq<byte>)
    ensures |Element(tag, c)| >= |c|
  {
  }

  lemma InSomePart(fields: seq<Field>, g: Field, k: nat)
    requires k < |fields|
    ensures g in fields <==> g == fields[k] || g in fields[..k] || g in fields[k + 1..]
  {
    assert fields == fields[..k] + [fields[k]] + fields[k + 1..];
  }

  lemma FirstIntegerOnly(n: nat, junk: seq<byte>)
    requires n < Capacity(8)
    ensures FirstInteger(Uint(n) + junk) == FirstInteger(Uint(n))
  {
    hide Element, Capacity, UintOf;
    DigitsLength(n, 8);
    ElementRead(INTEGER, UintBody(n), junk);
    ElementRead(INTEGER, UintBody(n), []);
    assert Uint(n) + [] == Uint(n);
  }

  lemma StartIgnores(rd: Reader, m: Found, f: Field, c: seq<byte>)
    requires Loose(f) && f in m && FirstInteger(c) == FirstInteger(m[f])
    ensures ReadStart(rd, m[f := c]) == ReadStart(rd, m)
  {
    hide FirstInteger, UintOf, Join16;
    assert m[f := c].Keys == m.Keys;
  }

  lemma MiddleIgnores(m: Found, f: Field, c: seq<byte>)
    requires Loose(f) && f in m
    ensures ReadMiddle(m[f := c]) == ReadMiddle(m)
  {
    hide Certificates, OptionalOctets, OptionalUint, OptionalBool, AgeAdd, Lookup, Bounded, Text, Stowed;
    OthersStay(m, f, c);
  }

  lemma TailIgnores(rd: Reader, m: Found, f: Field, c: seq<byte>)
    requires Loose(f) && f in m
    ensures ReadTail(rd, m[f := c]) == ReadTail(rd, m)
  {
    hide Certificates, OptionalOctets, OptionalUint, OptionalBool, AgeAdd, Lookup, Bounded, Text, Stowed;
    OthersStay(m, f, c);
  }

  lemma EndIgnores(m: Found, f: Field, c: seq<byte>, timeout: nat)
    requires Loose(f) && f in m
    ensures ReadEnd(m[f := c], timeout) == ReadEnd(m, timeout)
  {
    hide Certificates, OptionalOctets, OptionalUint, OptionalBool, AgeAdd, Lookup, Bounded, Text, Stowed;
    OthersStay(m, f, c);
  }

  lemma OthersStay(m: Found, f: Field, c: seq<byte>)
    ensures forall g | g != f :: Lookup(m[f := c], g) == Lookup(m, g)
  {
  }

  lemma DecodeIgnores(rd: Reader, m: Found, f: Field, c: seq<byte>)
    requires Loose(f) && f in m && FirstInteger(c) == FirstInteger(m[f])
    ensures Decode(rd, m[f := c]) == Decode(rd, m)
  {
    hide ReadStart, ReadMiddle, ReadTail, ReadEnd, FirstInteger;
    StartIgnores(rd, m, f, c);
    if ReadStart(rd, m).Some? {
      MiddleIgnores(m, f, c);
      TailIgnores(rd, m, f, c);
      EndIgnores(m, f, c, ReadStart(rd, m).value.timeout);
    }
  }

  lemma LooseInteger(rd: Reader, s: Session, forTicket: bool, f: Field, junk: seq<byte>)
    requires Loose(f) && Valid(rd, s)
    ensures var c := ContentOf(s, forTicket, f); c.Some? && FirstInteger(c.value + junk) == FirstInteger(c.value)
  {
    hide FirstInteger, Uint, Capacity;
    Capacities();
    FirstIntegerOnly(if f.FTime? then s.time else s.timeout, junk);
  }

  /** The output for a session is accepted with anything behind the integer of its time or
      timeout, and gives the same session: other octets, one session. */
  lemma TrailingIsIgnored(rd: Reader, s: Session, forTicket: bool, f: Field, junk: seq<byte>)
    requires Loose(f) && Valid(rd, s) && ToBytesFull(s, forTicket).Some?
    requires |Padded(s, forTicket, f, junk)| <= MAX_LENGTH
    ensures FromBytes(rd, Element(SEQUENCE, Padded(s, forTicket, f, junk))) ==
            FromBytes(rd, ToBytesFull(s, forTicket).value)
    ensures junk != [] ==> Padded(s, forTicket, f, junk) != Write(s, forTicket, FIELDS)
  {
    hide ContentOf, ReadFields, Write, Decode, Valid, PaddedAt, Finds, Separable, FindsAll, Loose, Element,
      FirstInteger;
    LooseInteger(rd, s, forTicket, f, junk);
    var c := ContentOf(s, forTicket, f).value;
    var padded, plain := Padded(s, forTicket, f, junk), Write(s, forTicket, FIELDS);
    FieldsSeparable();
    FieldsBefore(f);
    PaddedRead(s, forTicket, FIELDS, IndexOf(f), junk);
    FieldsRead(s, forTicket, FIELDS);
    var m, n := ReadFields(plain, FIELDS).value, ReadFields(padded, FIELDS).value;
    FindsSame(m, n[f := c], s, forTicket);
    DecodeIgnores(rd, n, f, c);
    InnerRead(SEQUENCE, padded);
    InnerRead(SEQUENCE, plain);
    if junk != [] {
      assert |c + junk| > |c|;
    }
  }

  lemma FindsSame(m: Found, n: Found, s: Session, forTicket: bool)
    requires Finds(m, s, forTicket, FIELDS) && Finds(n, s, forTicket, FIELDS)
    ensures m == n
  {
    hide ContentOf;
    forall f
      ensures (f in m <==> f in n) && (f in m ==> m[f] == n[f])
    {
      assert Lookup(m, f) == Lookup(n, f);
    }
  }
}
