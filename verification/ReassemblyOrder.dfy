/** Fragments of one message in any number, order and overlap. */
module ReassemblyOrder {
  import opened Bytes
  import opened Reassembly
  import opened HandshakeReader
  import Fragment

  datatype Piece = Piece(off: nat, body: seq<byte>)

  ghost function AbsorbAll(a: Assembly, pieces: seq<Piece>): (r: Assembly)
    ensures r.msgLen == a.msgLen && r.typ == a.typ && r.seqNum == a.seqNum
    decreases |pieces|
  {
    if pieces == [] then a else AbsorbAll(Absorb(a, pieces[0].off, pieces[0].body), pieces[1..])
  }

  ghost predicate Covers(pieces: seq<Piece>, i: nat) {
    exists k | 0 <= k < |pieces| :: Within(i, pieces[k].off, pieces[k].off + |pieces[k].body|)
  }

  ghost predicate Inside(pieces: seq<Piece>, n: nat) {
    forall k | 0 <= k < |pieces| :: pieces[k].off + |pieces[k].body| <= n
  }

  lemma CoversNext(pieces: seq<Piece>, i: nat)
    requires pieces != []
    ensures Covers(pieces, i) <==>
      Within(i, pieces[0].off, pieces[0].off + |pieces[0].body|) || Covers(pieces[1..], i)
  {
    if Covers(pieces[1..], i) {
      var k :| 0 <= k < |pieces[1..]| && Within(i, pieces[1..][k].off, pieces[1..][k].off + |pieces[1..][k].body|);
      assert pieces[k + 1] == pieces[1..][k];
    }
    if Covers(pieces, i) {
      var k :| 0 <= k < |pieces| && Within(i, pieces[k].off, pieces[k].off + |pieces[k].body|);
      assert k > 0 ==> pieces[1..][k - 1] == pieces[k];
    }
  }

  /** A byte has been received exactly if it was there before or lies in one of the pieces. */
  lemma {:induction false} ReceivedExactly(a: Assembly, pieces: seq<Piece>, i: nat)
    requires a.Valid() && Inside(pieces, a.msgLen) && i < a.msgLen
    ensures AbsorbAll(a, pieces).Valid()
    ensures i in AbsorbAll(a, pieces).got <==> i in a.got || Covers(pieces, i)
    decreases |pieces|
  {
    if pieces != [] {
      var p := pieces[0];
      var b := Absorb(a, p.off, p.body);
      assert b.Valid();
      ReceivedExactly(b, pieces[1..], i);
      CoversNext(pieces, i);
      if a.Complete() {
        assert i in a.got;
      }
    }
  }

  /** A message is complete exactly if the pieces cover it, whatever their order. */
  lemma CompleteIfCovered(typ: byte, seqNum: nat, msgLen: nat, pieces: seq<Piece>)
    requires msgLen < 0x100_0000 && seqNum < 0x1_0000 && Inside(pieces, msgLen)
    ensures AbsorbAll(Fresh(typ, seqNum, msgLen), pieces).Complete() <==>
      forall i: nat | i < msgLen :: Covers(pieces, i)
  {
    var a := Fresh(typ, seqNum, msgLen);
    forall i: nat | i < msgLen
      ensures i in AbsorbAll(a, pieces).got <==> Covers(pieces, i)
    {
      ReceivedExactly(a, pieces, i);
    }
  }

  /** The pieces are all cut from one body. */
  ghost predicate CutFrom(pieces: seq<Piece>, body: seq<byte>) {
    forall k | 0 <= k < |pieces| :: pieces[k].off + |pieces[k].body| <= |body|
                                    && pieces[k].body == body[pieces[k].off..pieces[k].off + |pieces[k].body|]
  }

  lemma {:induction false} BytesOf(a: Assembly, pieces: seq<Piece>, body: seq<byte>)
    requires a.Valid() && a.msgLen == |body| && CutFrom(pieces, body)
    requires forall i | i in a.got :: a.got[i] == body[i]
    ensures forall i | i in AbsorbAll(a, pieces).got :: i < |body| && AbsorbAll(a, pieces).got[i] == body[i]
    decreases |pieces|
  {
    if pieces != [] {
      var p := pieces[0];
      var b := Absorb(a, p.off, p.body);
      assert p.body == body[p.off..p.off + |p.body|];
      BytesOf(b, pieces[1..], body);
    }
  }

  /** Pieces of one body that cover it give that body, in whatever order, number and
      overlap they arrive. */
  lemma AnyOrderGivesTheBody(typ: byte, seqNum: nat, pieces: seq<Piece>, body: seq<byte>)
    requires |body| < 0x100_0000 && seqNum < 0x1_0000 && CutFrom(pieces, body)
    requires forall i: nat | i < |body| :: Covers(pieces, i)
    ensures var a := AbsorbAll(Fresh(typ, seqNum, |body|), pieces); a.Complete() && a.Body() == body
  {
    CompleteIfCovered(typ, seqNum, |body|, pieces);
    BytesOf(Fresh(typ, seqNum, |body|), pieces, body);
  }

  /** Fragments of messages before the window, or more than one behind its end, are ignored;
      a fragment of the message right behind its end fails the connection. */
  lemma OutsideTheWindow(rc: Receiver, ctx: ReadContext, f: Fragment.Fragment)
    requires |rc.slots| == MAX_FLIGHT && ctx.epoch == 0
    requires f.fragOff + |f.body| <= f.msgLen <= ctx.maxMessageLen
    requires f.seqNum < rc.readSeq || f.seqNum >= rc.readSeq + MAX_FLIGHT
    ensures ProcessFragment(rc, ctx, f).0 == rc
    ensures ProcessFragment(rc, ctx, f).1 ==
      if f.seqNum == rc.readSeq + MAX_FLIGHT then Failed(TooFarAhead) else Consumed
  {
  }
}
