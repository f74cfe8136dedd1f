/** The TLS write path: handshake records collect in a pending flight, application records
    go through the write buffer, and what the transport does not take is retried. */
module TlsWriter {
  import opened Bytes
  import opened WriteBuffer

  const MAX_PLAIN_LENGTH := 16384
  const MIN_SEND_FRAGMENT := 512
  const APPLICATION_DATA: byte := 23
  const HANDSHAKE: byte := 22
  const CHANGE_CIPHER_SPEC: byte := 20

  /** How the n-th record of a type is protected, if that does not fail. */
  type Sealer = (nat, byte, seq<byte>) -> Option<seq<byte>>

  ghost predicate BoundedSealer(seal: Sealer, overhead: nat) {
    forall n: nat, t: byte, p: seq<byte> :: seal(n, t, p).Some? ==> 0 < |seal(n, t, p).value| <= |p| + overhead
  }

  /** Does no record fail to be sealed? */
  ghost predicate AlwaysSeals(seal: Sealer) {
    forall n: nat, t: byte, p: seq<byte> :: |p| <= MAX_PLAIN_LENGTH ==> seal(n, t, p).Some?
  }

  /** What has been put into records of one type, in order. */
  ghost function Plain(inputs: seq<(byte, seq<byte>)>, recordType: byte): seq<byte> {
    if inputs == [] then []
    else
      var last := inputs[|inputs| - 1];
      Plain(inputs[..|inputs| - 1], recordType) + if last.0 == recordType then last.1 else []
  }

  lemma PlainNext(inputs: seq<(byte, seq<byte>)>, recordType: byte, data: seq<byte>)
    ensures forall t: byte ::
      Plain(inputs + [(recordType, data)], t) == Plain(inputs, t) + if t == recordType then data else []
  {
    assert (inputs + [(recordType, data)])[..|inputs|] == inputs;
  }

  /** The records are the sealed inputs, each under its own number. */
  ghost predicate SealedInOrder(seal: Sealer, inputs: seq<(byte, seq<byte>)>, records: seq<seq<byte>>) {
    && |inputs| == |records|
    && forall i: nat | i < |inputs| ::
         seal(i, inputs[i].0, inputs[i].1) == Some(records[i]) && |inputs[i].1| <= MAX_PLAIN_LENGTH
  }

  class Writer {
    const bio: Bio
    const buffer: Buffer
    const seal: Sealer
    const overhead: nat
    const maxSendFragment: nat
    const partialWrite: bool
    const movingBuffer: bool
    // How far the record header reaches before the part to be aligned, and where the
    // allocator puts the n-th record.
    const alignPrefix: nat
    const addresses: nat -> nat

    var flight: Option<seq<byte>>
    var flightOffset: nat
    var wnum: nat
    var wpendTot: nat
    var wpendAddress: int
    var wpendType: byte
    var wpendRet: nat
    var sealed: nat

    // What has been sealed so far, and the records that it became.
    ghost var inputs: seq<(byte, seq<byte>)>
    ghost var records: seq<seq<byte>>

    ghost predicate Valid()
      reads `flight, `flightOffset, `wpendTot, `wpendRet, `sealed, `inputs, `records, buffer, buffer.Owned()
    {
      && buffer.Valid() && BoundedSealer(seal, overhead)
      && MIN_SEND_FRAGMENT <= maxSendFragment <= MAX_PLAIN_LENGTH
      && (if flight.None? then flightOffset == 0 else flightOffset <= |flight.value|)
      && (buffer.len > 0 ==> 0 < wpendTot == wpendRet)
      && SealedInOrder(seal, inputs, records) && sealed == |records|
    }

    /** A record could not be sealed after the flight had been moved: the buffer stays
        allocated and empty. */
    predicate Broken()
      reads buffer`data, buffer`len
    {
      buffer.data != null && buffer.len == 0
    }

    /** The bytes of the flight that have not been written. */
    function FlightRest(): (s: seq<byte>)
      requires flight.Some? ==> flightOffset <= |flight.value|
      reads `flight, `flightOffset
    {
      if flight.None? then [] else flight.value[flightOffset..]
    }

    /** Unless the writer is broken, the transport has taken a prefix of the sealed records
        in the order they were sealed in, and the rest is still there to be written. */
    ghost predicate Conserved()
      requires Valid()
      reads `flight, `flightOffset, `wpendTot, `wpendRet, `sealed, `inputs, `records, buffer, buffer.Owned(), bio
    {
      !Broken() ==> bio.wire + (buffer.Contents() + FlightRest()) == Concat(records)
    }

    /** How much of the application data sealed is still in the write buffer's record. */
    ghost function PendingApp(): nat
      reads `wpendType, `wpendRet, buffer`len
    {
      if buffer.len > 0 && wpendType == APPLICATION_DATA then wpendRet else 0
    }

    constructor (seal: Sealer, overhead: nat, maxSendFragment: nat, partialWrite: bool, movingBuffer: bool,
        alignPrefix: nat, addresses: nat -> nat, results: nat -> int)
      requires BoundedSealer(seal, overhead) && MIN_SEND_FRAGMENT <= maxSendFragment <= MAX_PLAIN_LENGTH
      ensures Valid() && Conserved() && !Broken() && inputs == [] && wnum == 0
      ensures fresh(bio) && fresh(buffer) && fresh(buffer.Owned())
    {
      bio := new Bio(results);
      buffer := new Buffer();
      this.seal, this.overhead, this.maxSendFragment := seal, overhead, maxSendFragment;
      this.partialWrite, this.movingBuffer := partialWrite, movingBuffer;
      this.alignPrefix, this.addresses := alignPrefix, addresses;
      flight, flightOffset, wnum, sealed := None, 0, 0, 0;
      wpendTot, wpendAddress, wpendType, wpendRet := 0, 0, 0, 0;
      inputs, records := [], [];
    }

    /** The bookkeeping of a record that has just been sealed. */
    ghost method Note(recordType: byte, data: seq<byte>, r: seq<byte>)
      requires SealedInOrder(seal, inputs, records) && sealed == |records| + 1 && |data| <= MAX_PLAIN_LENGTH
      requires seal(|records|, recordType, data) == Some(r)
      modifies this`inputs, this`records
      ensures SealedInOrder(seal, inputs, records) && sealed == |records|
      ensures inputs == old(inputs) + [(recordType, data)] && Concat(records) == Concat(old(records)) + r
    {
      ConcatAppend(records, [r]);
      assert [r][..0] == [] && Concat([r]) == r;
      inputs, records := inputs + [(recordType, data)], records + [r];
    }

    /** Makes the flight longer, which begins empty if there is none. */
    method ExtendFlight(bytes: seq<byte>)
      requires if flight.None? then flightOffset == 0 else flightOffset <= |flight.value|
      modifies `flight
      ensures flight.Some? && flightOffset <= |flight.value| && FlightRest() == old(FlightRest()) + bytes
    {
      flight := Some(if flight.None? then bytes else flight.value + bytes);
    }

    /** `add_record_to_flight` */
    method AddRecordToFlight(recordType: byte, data: seq<byte>) returns (ok: bool)
      requires Valid() && Conserved() && flightOffset == 0 && |data| <= MAX_PLAIN_LENGTH
      modifies this`flight, this`sealed, this`inputs, this`records
      ensures Valid() && Conserved()
      ensures ok == seal(old(sealed), recordType, data).Some?
      ensures inputs == if ok then old(inputs) + [(recordType, data)] else old(inputs)
    {
      hide SealedInOrder, BoundedSealer, Concat, Plain, FlightRest;
      ghost var w, b, f := bio.wire, buffer.Contents(), FlightRest();
      var r := seal(sealed, recordType, data);
      if r.None? {
        ExtendFlight([]);
        assert f + [] == f;
        return false;
      }
      ExtendFlight(r.value);
      sealed := sealed + 1;
      Note(recordType, data, r.value);
      assert bio.wire == w && buffer.Contents() == b && FlightRest() == f + r.value;
      Regroup(w, b, f, r.value);
      return true;
    }

    /** `ssl3_add_message`: the message is cut into records of at most `maxSendFragment`
        bytes; an empty message still gets one. */
    method AddMessage(msg: seq<byte>) returns (ok: bool)
      requires Valid() && Conserved() && flightOffset == 0
      modifies this`flight, this`sealed, this`inputs, this`records
      ensures Valid() && Conserved() && |inputs| >= |old(inputs)| && inputs[..|old(inputs)|] == old(inputs)
      ensures ok ==> |inputs| > |old(inputs)| && Plain(inputs, HANDSHAKE) == Plain(old(inputs), HANDSHAKE) + msg
      ensures forall i | |old(inputs)| <= i < |inputs| :: inputs[i].0 == HANDSHAKE && |inputs[i].1| <= maxSendFragment
      ensures AlwaysSeals(seal) ==> ok
    {
      hide SealedInOrder, BoundedSealer, Concat, Plain;
      var added := 0;
      ghost var n, before := |inputs|, Plain(inputs, HANDSHAKE);
      assert before + msg[..0] == before;
      while true
        invariant Valid() && Conserved() && flightOffset == 0 && added <= |msg|
        invariant |inputs| >= n && inputs[..n] == old(inputs) && (|inputs| > n || added == 0)
        invariant Plain(inputs, HANDSHAKE) == before + msg[..added]
        invariant forall i | n <= i < |inputs| :: inputs[i].0 == HANDSHAKE && |inputs[i].1| <= maxSendFragment
        decreases |msg| - added, if |inputs| == n then 1 else 0
      {
        var todo := if |msg| - added > maxSendFragment then maxSendFragment else |msg| - added;
        PlainNext(inputs, HANDSHAKE, msg[added..added + todo]);
        ok := AddRecordToFlight(HANDSHAKE, msg[added..added + todo]);
        if !ok {
          return;
        }
        assert before + msg[..added] + msg[added..added + todo] == before + msg[..added + todo];
        added := added + todo;
        if added >= |msg| {
          break;
        }
      }
      assert msg[..added] == msg;
    }

    /** `ssl3_flush_flight` */
    method FlushFlight() returns (ret: int)
      requires Valid() && Conserved()
      modifies this`flight, this`flightOffset, bio
      ensures Valid() && Conserved()
      ensures ret > 0 ==> flight.None?
      ensures ret > 0 && old(flight).Some? ==> buffer.len == 0 && bio.wire == old(bio.wire) + old(FlightRest())
      ensures bio.Willing() && buffer.len == 0 && (old(flight).Some? ==> |old(flight).value| < 0x8000_0000) ==> ret > 0
    {
      if flight.None? {
        return 1;
      }
      if |flight.value| > 0x7fff_ffff {
        return -1;
      }
      if buffer.len > 0 {
        return -1;
      }
      hide BoundedSealer, SealedInOrder, Concat;
      NothingBefore(bio.wire, buffer.Contents(), FlightRest());
      while flightOffset < |flight.value|
        invariant flight == old(flight) && flightOffset <= |flight.value|
        invariant bio.wire + FlightRest() == old(bio.wire) + old(FlightRest())
        decreases |flight.value| - flightOffset
      {
        ghost var w, rest := bio.wire, FlightRest();
        var r := bio.Write(flight.value[flightOffset..]);
        NothingBefore(bio.wire, buffer.Contents(), FlightRest());
        if r <= 0 {
          assert w + rest[..0] == w;
          return r;
        }
        Resplit(w, rest, r);
        flightOffset := flightOffset + r;
        assert rest[r..] == FlightRest();
      }
      NothingBefore(bio.wire, buffer.Contents(), FlightRest());
      assert FlightRest() == [] && bio.wire + [] == bio.wire;
      var r := bio.Flush();
      if r <= 0 {
        return -1;
      }
      flight, flightOffset := None, 0;
      return 1;
    }

    /** May this call retry the record that is in the write buffer? */
    predicate Retries(recordType: byte, address: int, len: nat)
      reads `wpendTot, `wpendAddress, `wpendType
    {
      wpendTot <= len && (movingBuffer || wpendAddress == address) && wpendType == recordType
    }

    /** `ssl3_write_pending` */
    method WritePending(recordType: byte, address: int, len: nat) returns (ret: int)
      requires Valid() && Conserved() && buffer.len > 0
      modifies buffer, bio
      ensures Valid() && Conserved()
      ensures !Retries(recordType, address, len) ==> ret == -1 && unchanged(buffer) && bio.wire == old(bio.wire)
      ensures ret > 0 ==> Retries(recordType, address, len) && ret == wpendRet && buffer.data == null
      ensures ret <= 0 ==> buffer.len > 0 && buffer.data == old(buffer.data)
      ensures bio.Willing() && Retries(recordType, address, len) ==> ret > 0
    {
      hide SealedInOrder, BoundedSealer, Concat;
      if wpendTot > len || (!movingBuffer && wpendAddress != address) || wpendType != recordType {
        return -1;
      }
      ghost var w, b, f := bio.wire, buffer.Contents(), FlightRest();
      ret := buffer.Flush(bio);
      Reassociate(w, b, f);
      Reassociate(bio.wire, buffer.Contents(), FlightRest());
      if ret <= 0 {
        return;
      }
      return wpendRet;
    }

    /** Is there room in a new write buffer for the pending flight and a record of this length? */
    predicate Fits(len: nat)
      requires flight.Some? ==> flightOffset <= |flight.value|
      reads `flight, `flightOffset, buffer`data
    {
      buffer.data == null && len + overhead + |FlightRest()| <= MAX_BUFFER
    }

    /** The part of `do_ssl3_write` that moves the pending flight into a new write buffer.
        From here until the new record is sealed the flight's bytes are in no state to be
        written. */
    method MoveFlight(maxOut: nat) returns (ok: bool)
      requires Valid() && buffer.len == 0 && |FlightRest()| <= maxOut
      modifies this`flight, this`flightOffset, buffer
      ensures Valid() && fresh(buffer.Owned() - old(buffer.Owned())) && buffer.len == 0
      ensures ok ==>
        old(buffer.data) == null && fresh(buffer.Owned()) && Broken() && flight == None && buffer.cap == maxOut
      ensures ok ==> buffer.Stored(|old(FlightRest())|) == old(FlightRest())
      ensures !ok ==> flight == old(flight) && flightOffset == old(flightOffset) && unchanged(buffer)
      ensures ok <==> old(buffer.data) == null && maxOut <= MAX_BUFFER
    {
      hide SealedInOrder, BoundedSealer, Concat, Plain, FlightRest, Buffer.Stored;
      ok := buffer.Setup(alignPrefix, addresses(sealed), maxOut);
      if !ok {
        return;
      }
      ghost var f := FlightRest();
      buffer.StoredNothing();
      assert [] + f == f;
      if flight.Some? {
        buffer.Put(0, FlightRest());
        flight, flightOffset := None, 0;
      } else {
        NoFlight();
      }
    }

    lemma NoFlight()
      requires flight.None?
      ensures FlightRest() == []
    {
    }

    /** Seals a record behind what has been put into the write buffer, and notes what a
        retry must look like. */
    method SealBehind(at: nat, recordType: byte, address: int, data: seq<byte>) returns (ok: bool)
      requires Valid() && Broken() && 0 < |data| <= MAX_PLAIN_LENGTH && at + |data| + overhead <= buffer.cap
      modifies this`sealed, this`inputs, this`records, this`wpendTot, this`wpendAddress, this`wpendType, this`wpendRet
      modifies buffer`len, buffer.data
      ensures Valid() && buffer.data == old(buffer.data)
      ensures !ok ==> Broken() && inputs == old(inputs)
      ensures ok ==>
        buffer.len > 0 && wpendTot == wpendRet == |data| && wpendAddress == address && wpendType == recordType
      ensures ok ==> inputs == old(inputs) + [(recordType, data)]
      ensures ok <==> seal(old(sealed), recordType, data).Some?
      ensures ok ==> exists r ::
        buffer.Contents() == old(buffer.Stored(at)) + r && Concat(records) == Concat(old(records)) + r
    {
      hide SealedInOrder, Concat, Plain;
      var r := seal(sealed, recordType, data);
      if r.None? {
        return false;
      }
      buffer.Put(at, r.value);
      sealed := sealed + 1;
      Note(recordType, data, r.value);
      wpendTot, wpendAddress, wpendType, wpendRet := |data|, address, recordType, |data|;
      buffer.SetLen(at + |r.value|);
      return true;
    }

    /** The part of `do_ssl3_write` that makes the record: the pending flight moves into
        the write buffer, and the new record is put behind it. */
    method SealToBuffer(recordType: byte, address: int, data: seq<byte>) returns (ok: bool)
      requires Valid() && Conserved() && buffer.len == 0 && 0 < |data| <= MAX_PLAIN_LENGTH
      modifies this`flight, this`flightOffset, this`sealed, this`inputs, this`records
      modifies this`wpendTot, this`wpendAddress, this`wpendType, this`wpendRet, buffer
      ensures Valid() && Conserved() && fresh(buffer.Owned() - old(buffer.Owned()))
      ensures ok ==>
        buffer.len > 0 && wpendTot == wpendRet == |data| && wpendAddress == address && wpendType == recordType
      ensures inputs == if ok then old(inputs) + [(recordType, data)] else old(inputs)
      ensures !ok ==> Broken() || (flight == old(flight) && flightOffset == old(flightOffset))
      ensures !ok ==> buffer.len == 0 && (old(Broken()) ==> Broken())
      ensures ok ==> !old(Broken()) && flight == None
      ensures ok <==> old(Fits(|data|)) && seal(old(sealed), recordType, data).Some?
    {
      hide SealedInOrder, BoundedSealer, Concat, Plain;
      ghost var w, f, all := bio.wire, FlightRest(), Concat(records);
      var flightLen := |FlightRest()|;
      ok := MoveFlight(|data| + overhead + flightLen);
      if !ok {
        return;
      }
      assert w + ([] + f) == all;
      ok := SealBehind(flightLen, recordType, address, data);
      if ok {
        ghost var r :| buffer.Contents() == f + r && Concat(records) == all + r;
        MovedInOrder(w, f, r);
      }
    }

    /** Can a record be written, as a retry or as a new one? */
    predicate CanWrite(recordType: byte, address: int, len: nat)
      requires flight.Some? ==> flightOffset <= |flight.value|
      reads `flight, `flightOffset, `wpendTot, `wpendAddress, `wpendType, buffer`len, buffer`data
    {
      if buffer.len > 0 then Retries(recordType, address, len) else 0 < len <= MAX_PLAIN_LENGTH && Fits(len)
    }

    /** `do_ssl3_write` */
    method WriteRecord(recordType: byte, address: int, data: seq<byte>) returns (ret: int)
      requires Valid() && Conserved()
      modifies this`flight, this`flightOffset, this`sealed, this`inputs, this`records
      modifies this`wpendTot, this`wpendAddress, this`wpendType, this`wpendRet, buffer, bio
      ensures Valid() && Conserved() && fresh(buffer.Owned() - old(buffer.Owned()))
      ensures old(buffer.len) > 0 ==>
        inputs == old(inputs) && wpendTot == old(wpendTot) && wpendRet == old(wpendRet) && wpendType == old(wpendType)
      ensures old(buffer.len) > 0 && ret > 0 ==> old(Retries(recordType, address, |data|)) && ret == wpendRet
      ensures old(buffer.len) > 0 && ret <= 0 ==> buffer.len > 0
      ensures old(buffer.len) == 0 && ret > 0 ==> inputs == old(inputs) + [(recordType, data)] && ret == |data|
      ensures old(buffer.len) == 0 && ret <= 0 ==>
        if buffer.len > 0 then inputs == old(inputs) + [(recordType, data)] && wpendRet == |data|
          && wpendType == recordType
        else inputs == old(inputs)
      ensures ret > 0 ==> buffer.data == null && !old(Broken())
      ensures old(Broken()) ==> Broken()
      ensures ret > 0 ==> flight == (if old(buffer.len) > 0 then old(flight) else None)
      ensures ret > 0 && old(buffer.len) > 0 ==> flightOffset == old(flightOffset)
      ensures bio.Willing() && AlwaysSeals(seal) && old(CanWrite(recordType, address, |data|)) ==> ret > 0
    {
      if buffer.len > 0 {
        ret := WritePending(recordType, address, |data|);
        return;
      }
      if |data| > MAX_PLAIN_LENGTH {
        return -1;
      }
      if |data| == 0 {
        return 0;
      }
      var ok := SealToBuffer(recordType, address, data);
      if !ok {
        return -1;
      }
      ret := WritePending(recordType, address, |data|);
    }

    /** The application data sealed so far. */
    ghost function App(): seq<byte>
      reads `inputs
    {
      Plain(inputs, APPLICATION_DATA)
    }

    /** One application record, as a retry or as a new one. */
    method WriteAppRecord(address: int, data: seq<byte>) returns (ret: int)
      requires Valid() && Conserved()
      modifies this`flight, this`flightOffset, this`sealed, this`inputs, this`records
      modifies this`wpendTot, this`wpendAddress, this`wpendType, this`wpendRet, buffer, bio
      ensures Valid() && Conserved() && fresh(buffer.Owned() - old(buffer.Owned()))
      ensures ret > 0 ==> buffer.data == null
      ensures inputs == old(inputs) || inputs == old(inputs) + [(APPLICATION_DATA, data)]
      ensures ret > 0 && flight.Some? ==> flight == old(flight) && flightOffset == old(flightOffset)
      ensures bio.Willing() && AlwaysSeals(seal) && old(CanWrite(APPLICATION_DATA, address, |data|)) ==> ret > 0
      ensures RecordAttempted(data, ret, old(PendingApp()), old(App()), PendingApp(), App())
      ensures old(Broken()) ==> ret <= 0 && Broken() && PendingApp() == 0
    {
      hide SealedInOrder, BoundedSealer, Plain;
      PlainNext(inputs, APPLICATION_DATA, data);
      ret := WriteRecord(APPLICATION_DATA, address, data);
    }

    /** Only application records have been added, and none is longer than allowed. */
    ghost predicate AddsRecords(before: seq<(byte, seq<byte>)>, after: seq<(byte, seq<byte>)>) {
      && |before| <= |after| && after[..|before|] == before
      && forall i | |before| <= i < |after| :: after[i].0 == APPLICATION_DATA && |after[i].1| <= maxSendFragment
    }

    lemma NoRecords(before: seq<(byte, seq<byte>)>)
      ensures AddsRecords(before, before)
    {
    }

    lemma MoreRecords(before: seq<(byte, seq<byte>)>, was: seq<(byte, seq<byte>)>, now: seq<(byte, seq<byte>)>,
          data: seq<byte>)
      requires AddsRecords(before, was) && |data| <= maxSendFragment
      requires now == was || now == was + [(APPLICATION_DATA, data)]
      ensures AddsRecords(before, now)
    {
      assert (was + [(APPLICATION_DATA, data)])[..|before|] == was[..|before|];
    }

    /** Can this much application data be written, one record after the other: there is some,
        a record that must be retried is retried rightly, and there is room? */
    ghost predicate CanWriteAll(address: int, n: int)
      requires Valid()
      reads `flight, `flightOffset, `wpendTot, `wpendAddress, `wpendType, `wpendRet, `sealed, `inputs, `records
      reads buffer, buffer.Owned()
    {
      && n > 0 && maxSendFragment + overhead + |FlightRest()| <= MAX_BUFFER
      && CanWrite(APPLICATION_DATA, address, if n > maxSendFragment then maxSendFragment else n)
    }

    lemma StillCanWrite(address: int, n: int)
      requires Valid() && buffer.data == null && n > 0
      requires maxSendFragment + overhead + |FlightRest()| <= MAX_BUFFER
      ensures CanWriteAll(address, n)
    {
    }

    /** The loop of `ssl3_write_app_data`: `last` bytes are known to be written. */
    method WriteRest(address: int, data: seq<byte>, last: nat) returns (ret: int, tot: nat)
      requires Valid() && Conserved() && last <= |data|
      modifies this`flight, this`flightOffset, this`sealed, this`inputs, this`records
      modifies this`wpendTot, this`wpendAddress, this`wpendType, this`wpendRet, buffer, bio
      ensures Valid() && Conserved() && fresh(buffer.Owned() - old(buffer.Owned()))
      ensures Attempted(data, partialWrite, ret, last, old(PendingApp()), old(App()),
                        if ret > 0 then 0 else tot, PendingApp(), App())
      ensures ret > 0 ==> buffer.data == null
      ensures old(Broken()) ==> ret <= 0 && Broken()
      ensures AddsRecords(old(inputs), inputs)
      ensures bio.Willing() && AlwaysSeals(seal) && old(CanWriteAll(address + last, |data| - last)) ==> ret > 0
    {
      hide Valid, Conserved, App, PendingApp, Progress, RecordAttempted, Attempted, CanWrite, AddsRecords, AlwaysSeals;
      ghost var start, app := last + PendingApp(), App();
      tot := last;
      var n := |data| - tot;
      ProgressStart(data, tot, PendingApp(), app);
      NoRecords(inputs);
      while true
        invariant Valid() && Conserved() && fresh(buffer.Owned() - old(buffer.Owned()))
        invariant 0 <= n == |data| - tot && last <= tot
        invariant Progress(data, app, start, tot, PendingApp(), App())
        invariant old(Broken()) ==> Broken()
        invariant AddsRecords(old(inputs), inputs)
        invariant old(CanWriteAll(address + last, |data| - last)) ==> CanWriteAll(address + tot, n)
        decreases n
      {
        var max := maxSendFragment;
        var nw := if n > max then max else n;
        ghost var p, a := PendingApp(), App();
        ghost var was := inputs;
        ret := WriteAppRecord(address + tot, data[tot..tot + nw]);
        MoreRecords(old(inputs), was, inputs, data[tot..tot + nw]);
        ProgressStep(data, app, start, tot, nw, ret, p, a, PendingApp(), App());
        if ret <= 0 {
          AttemptEnds(data, partialWrite, ret, last, old(PendingApp()), app, tot, PendingApp(), App());
          return;
        }
        if ret == n || partialWrite {
          tot := tot + ret;
          AttemptEnds(data, partialWrite, tot, last, old(PendingApp()), app, tot, PendingApp(), App());
          return tot, tot;
        }
        n, tot := n - ret, tot + ret;
        if old(CanWriteAll(address + last, |data| - last)) {
          StillCanWrite(address + tot, n);
        }
      }
    }

    /** `ssl3_write_app_data` for a buffer of length `|data|` at `address`. A call that is
        to retry a write which did not complete is given the same data again; new records
        then begin where the last call stopped. */
    method WriteAppData(address: int, data: seq<byte>) returns (ret: int)
      requires Valid() && Conserved()
      modifies this`flight, this`flightOffset, this`sealed, this`inputs, this`records
      modifies this`wnum, this`wpendTot, this`wpendAddress, this`wpendType, this`wpendRet, buffer, bio
      ensures Valid() && Conserved() && fresh(buffer.Owned() - old(buffer.Owned()))
      ensures Attempted(data, partialWrite, ret, old(wnum), old(PendingApp()), old(App()), wnum, PendingApp(), App())
      ensures ret > 0 ==> buffer.data == null
      ensures old(Broken()) ==> ret <= 0 && Broken()
      ensures AddsRecords(old(inputs), inputs)
      ensures bio.Willing() && AlwaysSeals(seal) && old(CanWriteAll(address + wnum, |data| - wnum)) ==> ret > 0
    {
      hide SealedInOrder, BoundedSealer, Concat, Plain, AddsRecords;
      var tot := wnum;
      wnum := 0;
      NoRecords(inputs);
      if |data| < tot {
        return -1;
      }
      ret, tot := WriteRest(address, data, tot);
      if ret <= 0 {
        wnum := tot;
      }
    }
  }

  /** What an attempt to write one application record does. */
  ghost predicate RecordAttempted(data: seq<byte>, ret: int, pending: nat, app: seq<byte>, pending': nat,
        app': seq<byte>)
  {
    && (ret > 0 ==> ret <= |data| && pending' == 0)
    && (ret > 0 && pending > 0 ==> ret == pending && app' == app)
    && (ret > 0 && pending == 0 ==> ret == |data| && app' == app + data)
    && (ret <= 0 && pending' == pending ==> app' == app)
    && (ret <= 0 && pending' != pending ==> pending == 0 && pending' == |data| && app' == app + data)
    && (pending > |data| ==> ret <= 0 && pending' == pending)
  }

  /** The state within a call: all data from `start` to `tot + pending` has been sealed. */
  ghost predicate Progress(data: seq<byte>, app0: seq<byte>, start: nat, tot: nat, pending: nat, app: seq<byte>) {
    if start <= |data| then start <= tot + pending <= |data| && app == app0 + data[start..tot + pending]
    else tot + pending == start && app == app0
  }

  lemma ProgressStart(data: seq<byte>, tot: nat, pending: nat, app: seq<byte>)
    ensures Progress(data, app, tot + pending, tot, pending, app)
  {
    var start := tot + pending;
    if start <= |data| {
      assert app + data[start..start] == app;
    }
  }

  lemma ProgressStep(data: seq<byte>, app0: seq<byte>, start: nat, tot: nat, nw: nat, ret: int,
      pending: nat, app: seq<byte>, pending': nat, app': seq<byte>)
    requires tot + nw <= |data| && Progress(data, app0, start, tot, pending, app)
    requires RecordAttempted(data[tot..tot + nw], ret, pending, app, pending', app')
    ensures Progress(data, app0, start, if ret > 0 then tot + ret else tot, pending', app')
    ensures ret > 0 ==> ret <= nw && start <= tot + ret && pending' == 0
  {
    if start <= |data| && pending == 0 {
      Grown(app0, data, start, tot, nw);
    }
  }

  /** The end of a call: `tot` bytes are known to be written, and `ret` is returned. */
  lemma AttemptEnds(data: seq<byte>, partialWrite: bool, ret: int,
      wnum: nat, pending: nat, app: seq<byte>, tot: nat, pending': nat, app': seq<byte>)
    requires wnum <= |data| && wnum <= tot && Progress(data, app, wnum + pending, tot, pending', app')
    requires ret > 0 ==>
      ret == tot && (ret == |data| || partialWrite) && pending' == 0 && wnum + pending <= ret <= |data|
    ensures Attempted(data, partialWrite, ret, wnum, pending, app, if ret > 0 then 0 else tot, pending', app')
  {
  }

  /** What a call of `ssl3_write_app_data` does to the number of bytes that earlier calls
      have had written (`wnum`), to the number in the record that is still being written,
      and to the application data sealed. */
  ghost predicate Attempted(data: seq<byte>, partialWrite: bool, ret: int,
      wnum: nat, pending: nat, app: seq<byte>, wnum': nat, pending': nat, app': seq<byte>)
  {
    var start, end := wnum + pending, wnum' + pending';
    if |data| < wnum then ret == -1 && wnum' == 0 && pending' == pending && app' == app
    else if |data| < start then ret <= 0 && end == start && app' == app
    else if ret > 0 then
      start <= ret <= |data| && (ret == |data| || partialWrite) && end == 0 && app' == app + data[start..ret]
    else start <= end <= |data| && wnum <= wnum' && app' == app + data[start..end]
  }

  lemma Grown(app: seq<byte>, data: seq<byte>, start: nat, tot: nat, n: nat)
    requires start <= |data| && tot + n <= |data|
    ensures start <= tot ==> app + data[start..tot] + data[tot..tot + n] == app + data[start..tot + n]
  {
  }

  lemma MovedInOrder(w: seq<byte>, f: seq<byte>, r: seq<byte>)
    ensures w + ((f + r) + []) == (w + ([] + f)) + r
  {
  }

  lemma Reassociate(w: seq<byte>, b: seq<byte>, f: seq<byte>)
    ensures w + (b + f) == (w + b) + f
  {
  }

  lemma NothingBefore(w: seq<byte>, b: seq<byte>, f: seq<byte>)
    requires b == []
    ensures w + (b + f) == w + f
  {
    assert b + f == f;
  }

  lemma Regroup(w: seq<byte>, b: seq<byte>, f: seq<byte>, r: seq<byte>)
    ensures w + (b + (f + r)) == (w + (b + f)) + r
  {
  }
}
