/** Reassembly of one handshake message from fragments that arrive in any order,
    any number of times (section 4.2.3 of RFC 6347). */
module Reassembly {
  import opened Bytes
  import opened BitMask
  import Fragment

  /** A message being put together: `got` holds the body bytes received so far. */
  datatype Assembly = Assembly(typ: byte, seqNum: nat, msgLen: nat, got: map<nat, byte>)
  {
    ghost predicate Valid() {
      && msgLen < 0x100_0000
      && seqNum < 0x1_0000
      && forall i | i in got :: i < msgLen
    }

    ghost predicate Complete() {
      forall i | 0 <= i < msgLen :: i in got
    }

    /** The whole body, once every byte is there. */
    ghost function Body(): (s: seq<byte>)
      requires Complete()
    {
      seq(msgLen, i requires 0 <= i < msgLen => got[i])
    }
  }

  /** The bytes hashed for a message: its header as a single fragment, then its body. */
  function Serialize(typ: byte, seqNum: nat, body: seq<byte>): (s: seq<byte>)
    requires seqNum < 0x1_0000 && |body| < 0x100_0000
  {
    Fragment.Header(typ, |body|, seqNum, 0, |body|) + body
  }

  ghost function Fresh(typ: byte, seqNum: nat, msgLen: nat): (a: Assembly)
  {
    Assembly(typ, seqNum, msgLen, map[])
  }

  predicate Within(i: int, start: int, end: int)
  {
    start <= i < end
  }

  ghost function Overlay(got: map<nat, byte>, off: nat, body: seq<byte>): (m: map<nat, byte>)
    ensures forall i :: i in m <==> i in got || Within(i, off, off + |body|)
    ensures forall i | i in m :: m[i] == if Within(i, off, off + |body|) then body[i - off] else got[i]
  {
    var end := off + |body|;
    got + map i: nat | i < end && Within(i, off, end) :: body[i - off]
  }

  lemma OverlayKeys(got: map<nat, byte>, off: nat, body: seq<byte>)
    ensures Overlay(got, off, body).Keys == got.Keys + Span(off, off + |body|)
  {
  }

  /** What a fragment does to the message it belongs to. */
  ghost function Absorb(a: Assembly, off: nat, body: seq<byte>): (r: Assembly)
  {
    if a.Complete() then a else a.(got := Overlay(a.got, off, body))
  }

  class HmFragment {
    const typ: byte
    const seqNum: nat
    const msgLen: nat
    const data: array<byte>
    /** One bit a body byte; null once the message is complete. */
    var reassembly: array?<bv8>
    ghost var got: map<nat, byte>
    ghost const Repr: set<object>

    /** Everything `Valid` says except that the body bytes agree with `got`. */
    ghost predicate Framed()
      reads this, Repr
    {
      && this in Repr && data in Repr
      && (reassembly != null ==> reassembly in Repr)
      && Abs().Valid()
      && data.Length == Fragment.HEADER_LENGTH + msgLen
      && data[..Fragment.HEADER_LENGTH] == Fragment.Header(typ, msgLen, seqNum, 0, msgLen)
      && (reassembly == null <==> Abs().Complete())
      && (reassembly != null ==> reassembly.Length == (msgLen + 7) / 8 && Exact(reassembly[..], got.Keys))
    }

    ghost predicate Valid()
      reads this, Repr
    {
      && Framed()
      && forall i | i in got :: data[Fragment.HEADER_LENGTH + i] == got[i]
    }

    ghost function Abs(): Assembly
      reads this
    {
      Assembly(typ, seqNum, msgLen, got)
    }

    /** `dtls1_hm_fragment_new`: the header is filled in, no body byte is marked,
        and an empty message is complete at once. */
    constructor (typ: byte, seqNum: nat, msgLen: nat)
      requires msgLen < 0x100_0000 && seqNum < 0x1_0000
      ensures Valid() && Abs() == Fresh(typ, seqNum, msgLen)
      ensures fresh(Repr)
    {
      this.typ, this.seqNum, this.msgLen := typ, seqNum, msgLen;
      var header := Fragment.Header(typ, msgLen, seqNum, 0, msgLen);
      var bytes := new byte[Fragment.HEADER_LENGTH + msgLen](
        i requires 0 <= i => if i < |header| then header[i] else 0);
      var mask: array?<bv8> := null;
      ghost var repr: set<object> := {bytes};
      if msgLen > 0 {
        mask := new bv8[(msgLen + 7) / 8](_ => 0);
        repr := repr + {mask};
        assert forall k | 0 <= k < 8 :: !BitSet(0, k);
      }
      data, reassembly := bytes, mask;
      got := map[];
      Repr := {this} + repr;
      new;
      assert 0 !in got;
    }

    /** `dtls1_hm_fragment_mark` on a message still being put together, after the
        body bytes `start`, inclusive, to `end`, exclusive, have been copied in.
        The mask byte that holds bit `start` must exist. */
    method Mark(start: nat, end: nat, ghost body: seq<byte>)
      requires Framed() && reassembly != null
      requires start <= end <= msgLen && start / 8 < reassembly.Length
      requires |body| == end - start
      requires forall i | i in got && !Within(i, start, end) :: data[Fragment.HEADER_LENGTH + i] == got[i]
      requires forall i | Within(i, start, end) :: data[Fragment.HEADER_LENGTH + i] == body[i - start]
      modifies this, reassembly
      ensures Valid()
      ensures Abs() == old(Abs()).(got := Overlay(old(got), start, body))
    {
      hide Exact, BitSet, Overlay, Span, Fragment.Header;
      var mask := reassembly;
      MarkRange(mask, got.Keys, start, end);
      ghost var now := Overlay(got, start, body);
      OverlayKeys(got, start, body);
      var complete := AllMarked(mask, msgLen, now.Keys);
      got := now;
      if complete {
        reassembly := null;
      }
    }

    /** The copy and the marking that end the loop of `dtls1_process_handshake_record`.
        An empty range at the very end of a message whose length is a multiple of
        eight names a mask byte that does not exist; `pastEnd` reports it. Nothing
        is received then, so the message is left as it was. */
    method Receive(start: nat, body: seq<byte>) returns (pastEnd: bool)
      requires Valid() && start + |body| <= msgLen
      modifies Repr
      ensures Valid()
      ensures Abs() == Absorb(old(Abs()), start, body)
      ensures pastEnd <==> old(reassembly) != null && start == msgLen && msgLen % 8 == 0
    {
      if reassembly == null {
        return false;
      }
      pastEnd := start / 8 >= reassembly.Length;
      if pastEnd {
        assert Overlay(got, start, body) == got;
        return;
      }
      forall i | 0 <= i < |body| {
        data[Fragment.HEADER_LENGTH + start + i] := body[i];
      }
      Mark(start, start + |body|, body);
    }
  }

  ghost function Span(start: nat, end: nat): set<nat>
  {
    set i: nat | i < end && Within(i, start, end)
  }

  /** Bit i of the mask is set exactly when byte i has been received. */
  ghost predicate Exact(mask: seq<bv8>, marked: set<nat>)
  {
    forall b, k | 0 <= b < |mask| && 0 <= k < 8 :: BitSet(mask[b], k) <==> 8 * b + k in marked
  }

  /** Marking inside one byte of the mask. */
  method MarkByte(mask: array<bv8>, ghost marked: set<nat>, b: nat, from: nat, to: nat)
    requires b < mask.Length && from <= to <= 8
    requires Exact(mask[..], marked)
    modifies mask
    ensures Exact(mask[..], marked + Span(8 * b + from, 8 * b + to))
  {
    BitRangeExact(from, to);
    OrExact(mask[b], BitRange(from, to));
    mask[b] := mask[b] | BitRange(from, to);
    forall c, k | 0 <= c < mask.Length && 0 <= k < 8
      ensures BitSet(mask[c], k) <==> 8 * c + k in marked + Span(8 * b + from, 8 * b + to)
    {
      assert BitSet(old(mask[c]), k) <==> 8 * c + k in marked;
      assert Within(8 * c + k, 8 * b + from, 8 * b + to) <==> c == b && from <= k < to;
    }
  }

  method FillByte(mask: array<bv8>, ghost marked: set<nat>, b: nat)
    requires b < mask.Length
    requires Exact(mask[..], marked)
    modifies mask
    ensures Exact(mask[..], marked + Span(8 * b, 8 * b + 8))
  {
    FullByte(0xff);
    mask[b] := 0xff;
    forall c, k | 0 <= c < mask.Length && 0 <= k < 8
      ensures BitSet(mask[c], k) <==> 8 * c + k in marked + Span(8 * b, 8 * b + 8)
    {
      assert BitSet(old(mask[c]), k) <==> 8 * c + k in marked;
      assert Within(8 * c + k, 8 * b, 8 * b + 8) <==> c == b;
    }
  }

  /** The marking half of `dtls1_hm_fragment_mark`. */
  method MarkRange(mask: array<bv8>, ghost marked: set<nat>, start: nat, end: nat)
    requires start <= end <= 8 * mask.Length && start / 8 < mask.Length
    requires Exact(mask[..], marked)
    modifies mask
    ensures Exact(mask[..], marked + Span(start, end))
  {
    if start / 8 == end / 8 {
      MarkByte(mask, marked, start / 8, start % 8, end % 8);
    } else {
      MarkByte(mask, marked, start / 8, start % 8, 8);
      for i := start / 8 + 1 to end / 8
        invariant Exact(mask[..], marked + Span(start, 8 * i))
      {
        FillByte(mask, marked + Span(start, 8 * i), i);
        assert marked + Span(start, 8 * i) + Span(8 * i, 8 * i + 8) == marked + Span(start, 8 * (i + 1));
      }
      if end % 8 != 0 {
        var i := end / 8;
        MarkByte(mask, marked + Span(start, 8 * i), i, 0, end % 8);
        assert marked + Span(start, 8 * i) + Span(8 * i, 8 * i + end % 8) == marked + Span(start, end);
      }
    }
  }

  /** The completeness check at the end of `dtls1_hm_fragment_mark`. */
  method AllMarked(mask: array<bv8>, msgLen: nat, ghost marked: set<nat>) returns (complete: bool)
    requires mask.Length == (msgLen + 7) / 8
    requires Exact(mask[..], marked)
    requires forall i | i in marked :: i < msgLen
    ensures complete <==> forall i | 0 <= i < msgLen :: i in marked
  {
    for i := 0 to msgLen / 8
      invariant forall j | 0 <= j < 8 * i :: j in marked
    {
      FullByte(mask[i]);
      if mask[i] != 0xff {
        ghost var k :| 0 <= k < 8 && !BitSet(mask[i], k);
        assert 8 * i + k !in marked;
        return false;
      }
      assert forall j | 8 * i <= j < 8 * i + 8 :: j in marked by {
        forall j | 8 * i <= j < 8 * i + 8 ensures j in marked {
          assert BitSet(mask[i], j - 8 * i);
        }
      }
    }
    if msgLen % 8 != 0 {
      var last := msgLen / 8;
      BitRangeExact(0, msgLen % 8);
      if mask[last] != BitRange(0, msgLen % 8) {
        if forall k | 0 <= k < msgLen % 8 :: BitSet(mask[last], k) {
          SameBits(mask[last], BitRange(0, msgLen % 8));
          assert false;
        }
        ghost var k :| 0 <= k < msgLen % 8 && !BitSet(mask[last], k);
        assert 8 * last + k !in marked;
        return false;
      }
      forall j | 8 * last <= j < msgLen ensures j in marked {
        assert BitSet(mask[last], j - 8 * last);
      }
    }
    return true;
  }

  lemma FullByte(b: bv8)
    ensures b == 0xff <==> forall k | 0 <= k < 8 :: BitSet(b, k)
  {
    assert forall k | 0 <= k < 8 :: BitSet(0xff, k);
    if forall k | 0 <= k < 8 :: BitSet(b, k) {
      SameBits(b, 0xff);
    }
  }
}
