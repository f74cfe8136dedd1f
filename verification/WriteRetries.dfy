/** Series of calls of `ssl3_write_app_data` that retry one write. */
module WriteRetries {
  import opened Bytes
  import opened TlsWriter
  import opened WriteBuffer

  /** What is kept between the calls: the bytes known to be written, the bytes in the record
      that is still being written, and all application data sealed. */
  datatype Kept = Kept(wnum: nat, pending: nat, app: seq<byte>)

  /** The data sealed since the write began is exactly what has been counted. */
  ghost predicate Tracks(data: seq<byte>, before: seq<byte>, k: Kept) {
    k.wnum + k.pending <= |data| && k.app == before + data[..k.wnum + k.pending]
  }

  ghost predicate Call(data: seq<byte>, partialWrite: bool, ret: int, k: Kept, k': Kept) {
    Attempted(data, partialWrite, ret, k.wnum, k.pending, k.app, k'.wnum, k'.pending, k'.app)
  }

  /** A call that is given the first `n` bytes of the data and does not complete keeps
      track exactly if `n` is not less than what has been written before: the count is
      cleared before the length is checked. */
  lemma RetryTracks(data: seq<byte>, n: nat, partialWrite: bool, before: seq<byte>, ret: int, k: Kept, k': Kept)
    requires Tracks(data, before, k) && n <= |data| && ret <= 0 && Call(data[..n], partialWrite, ret, k, k')
    ensures Tracks(data, before, k') <==> k.wnum <= n
  {
    var start, end := k.wnum + k.pending, k'.wnum + k'.pending;
    if k.wnum <= n {
      if start <= n {
        assert data[..start] + data[..n][start..end] == data[..end];
        assert before + data[..start] + data[..n][start..end] == before + data[..end];
      }
    } else {
      assert |k'.app| == |before| + start && end == k.pending;
    }
  }

  /** A call that completes has had sealed exactly as many bytes as it says. */
  lemma SuccessTracks(data: seq<byte>, n: nat, partialWrite: bool, before: seq<byte>, ret: int, k: Kept, k': Kept)
    requires Tracks(data, before, k) && n <= |data| && ret > 0 && Call(data[..n], partialWrite, ret, k, k')
    ensures ret <= n && k'.app == before + data[..ret] && (ret == n || partialWrite)
    ensures k'.wnum == k'.pending == 0 && k.wnum <= n
  {
    var start := k.wnum + k.pending;
    assert data[..start] + data[..n][start..ret] == data[..ret];
    assert before + data[..start] + data[..n][start..ret] == before + data[..ret];
  }

  /** A series of calls with prefixes of the same data, all but the last incomplete and none
      shorter than what had been written before it. */
  ghost predicate Series(data: seq<byte>, partialWrite: bool, lengths: seq<nat>, rets: seq<int>, kept: seq<Kept>) {
    && 0 < |lengths| == |rets| && |kept| == |rets| + 1 && kept[0].wnum == kept[0].pending == 0
    && (forall i | 0 <= i < |rets| :: kept[i].wnum <= lengths[i] <= |data|)
    && (forall i | 0 <= i < |rets| - 1 :: rets[i] <= 0)
    && (forall i | 0 <= i < |rets| :: CallAt(data, partialWrite, lengths, rets, kept, i))
  }

  ghost predicate CallAt(data: seq<byte>, partialWrite: bool, lengths: seq<nat>, rets: seq<int>, kept: seq<Kept>,
        i: nat)
    requires |lengths| == |rets| && |kept| == |rets| + 1 && i < |rets|
  {
    lengths[i] <= |data| && Call(data[..lengths[i]], partialWrite, rets[i], kept[i], kept[i + 1])
  }

  lemma {:induction false} SeriesTracks(data: seq<byte>, partialWrite: bool, lengths: seq<nat>, rets: seq<int>,
        kept: seq<Kept>, i: nat)
    requires Series(data, partialWrite, lengths, rets, kept) && i < |rets|
    ensures Tracks(data, kept[0].app, kept[i])
  {
    hide Attempted;
    if i == 0 {
      assert kept[0].app + data[..0] == kept[0].app;
    } else {
      SeriesTracks(data, partialWrite, lengths, rets, kept, i - 1);
      assert CallAt(data, partialWrite, lengths, rets, kept, i - 1);
      RetryTracks(data, lengths[i - 1], partialWrite, kept[0].app, rets[i - 1], kept[i - 1], kept[i]);
    }
  }

  /** Whatever the transport takes in each call, the plaintext sealed in the whole series is
      a prefix of the data, without a byte lost, repeated or moved; and when the last call
      succeeds it is as long as that call says. */
  lemma RetriesAreExact(data: seq<byte>, partialWrite: bool, lengths: seq<nat>, rets: seq<int>, kept: seq<Kept>)
    requires Series(data, partialWrite, lengths, rets, kept)
    ensures var n, ret, k := |rets| - 1, rets[|rets| - 1], kept[|rets|];
            if ret > 0 then ret <= lengths[n] && k.app == kept[0].app + data[..ret]
              && (ret == lengths[n] || partialWrite)
            else Tracks(data, kept[0].app, k)
  {
    hide Attempted;
    var n := |rets| - 1;
    SeriesTracks(data, partialWrite, lengths, rets, kept, n);
    assert CallAt(data, partialWrite, lengths, rets, kept, n);
    if rets[n] > 0 {
      SuccessTracks(data, lengths[n], partialWrite, kept[0].app, rets[n], kept[n], kept[n + 1]);
    } else {
      RetryTracks(data, lengths[n], partialWrite, kept[0].app, rets[n], kept[n], kept[n + 1]);
    }
  }

  /** A retry with fewer bytes than have been counted makes a later call that succeeds send
      again as many bytes as had been counted. */
  lemma ShortRetryRepeats(data: seq<byte>, n: nat, partialWrite: bool, before: seq<byte>, short: int, ret: int,
        k: Kept, k': Kept, k'': Kept)
    requires Tracks(data, before, k) && n < k.wnum
    requires Call(data[..n], partialWrite, short, k, k') && Call(data, partialWrite, ret, k', k'') && ret > 0
    ensures short == -1 && k.pending <= ret <= |data|
    ensures k''.app == before + data[..k.wnum + k.pending] + data[k.pending..ret]
  {
  }

  /** The same as a run of the writer: a call that does not complete, one that is given too
      little, and one that is given all again. What the last has had sealed begins `counted`
      bytes before what had not been. */
  method RetryTooShort(w: Writer, address: int, data: seq<byte>, n: nat)
    returns (ret: int, ghost counted: nat, ghost pending: nat)
    requires w.Valid() && w.Conserved() && w.wnum == 0 && w.PendingApp() == 0 && n <= |data|
    modifies w, w.buffer, w.bio
    ensures w.Valid() && w.Conserved() && counted + pending <= |data|
    ensures n < counted && ret > 0 ==>
      pending <= ret <= |data| && w.App() == old(w.App()) + data[..counted + pending] + data[pending..ret]
  {
    hide Writer.Valid, Writer.Conserved, Writer.App, Attempted;
    ghost var app := w.App();
    var first := w.WriteAppData(address, data);
    counted, pending := w.wnum, w.PendingApp();
    ghost var k := Kept(counted, pending, w.App());
    FirstTracks(data, w.partialWrite, first, app, k);
    if first > 0 || w.wnum <= n {
      return first, counted, pending;
    }
    var second := w.WriteAppData(address, data[..n]);
    ghost var k' := Kept(w.wnum, w.PendingApp(), w.App());
    ret := w.WriteAppData(address, data);
    if ret > 0 {
      ShortRetryRepeats(data, n, w.partialWrite, app, second, ret, k, k', Kept(w.wnum, w.PendingApp(), w.App()));
    }
  }

  lemma FirstTracks(data: seq<byte>, partialWrite: bool, ret: int, before: seq<byte>, k: Kept)
    requires Call(data, partialWrite, ret, Kept(0, 0, before), k)
    ensures ret > 0 ==> k.wnum == k.pending == 0
    ensures ret <= 0 ==> Tracks(data, before, k)
  {
  }

  /** In numbers: the first of two bytes goes out twice. */
  lemma ShortRetrySendsTwice()
    ensures var data, sent := [1, 2], [1];
            exists k', k'' :: Call(data[..0], false, -1, Kept(1, 0, sent), k') && Call(data, false, 2, k', k'')
                              && k''.app == [1, 1, 2]
  {
    var data: seq<byte>, sent: seq<byte> := [1, 2], [1];
    var k', k'' := Kept(0, 0, sent), Kept(0, 0, [1, 1, 2]);
    assert sent + data[0..2] == [1, 1, 2];
    assert Call(data[..0], false, -1, Kept(1, 0, sent), k') && Call(data, false, 2, k', k'');
  }
}
