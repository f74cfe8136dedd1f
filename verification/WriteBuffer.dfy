/** The write buffer and the transport it is flushed to. */
module WriteBuffer {
  import opened Bytes

  const ALIGN_PAYLOAD := 8
  const MAX_BUFFER := 0xffff

  /** The transport. What each call of BIO_write and BIO_flush returns is decided by an
      oracle; `wire` is all it has taken. */
  class Bio {
    const results: nat -> int
    var calls: nat
    ghost var wire: seq<byte>

    /** Does every call take something? */
    ghost predicate Willing() {
      forall n: nat :: results(n) > 0
    }

    constructor (results: nat -> int)
      ensures this.results == results && wire == []
    {
      this.results := results;
      calls, wire := 0, [];
    }

    method Write(data: seq<byte>) returns (ret: int)
      modifies this
      ensures ret <= |data| && wire == old(wire) + data[..if ret > 0 then ret else 0]
      ensures Willing() && data != [] ==> ret > 0
    {
      var r := results(calls);
      calls := calls + 1;
      ret := if r > |data| then |data| else r;
      wire := wire + data[..if ret > 0 then ret else 0];
    }

    method Flush() returns (ret: int)
      modifies this
      ensures wire == old(wire) && (Willing() ==> ret > 0)
    {
      ret := results(calls);
      calls := calls + 1;
    }
  }

  /** SSL3_BUFFER: the bytes from `offset` to `offset + len` are to be written. */
  class Buffer {
    var data: array?<byte>
    var offset: nat
    var len: nat
    var cap: nat

    ghost function Owned(): set<object>
      reads this
    {
      if data == null then {} else {data}
    }

    ghost predicate Valid()
      reads this, Owned()
    {
      if data == null then offset == len == cap == 0
      else offset + cap <= data.Length && len <= cap <= MAX_BUFFER
    }

    ghost function Contents(): (s: seq<byte>)
      requires Valid()
      reads this, Owned()
      ensures |s| == len
    {
      if data == null then [] else data[offset..offset + len]
    }

    constructor ()
      ensures Valid() && data == null && Contents() == []
    {
      data, offset, len, cap := null, 0, 0, 0;
    }

    /** `setup_buffer`: allocates the buffer so that what follows a prefix of `header`
        bytes is aligned; `address` is where the allocator puts it. */
    method Setup(header: nat, address: nat, max: nat) returns (ok: bool)
      requires Valid()
      modifies this
      ensures Valid() && fresh(Owned() - old(Owned()))
      ensures ok <==> old(data) == null && max <= MAX_BUFFER
      ensures ok ==> data != null && len == 0 && cap == max && (address + offset + header) % ALIGN_PAYLOAD == 0
      ensures !ok ==> unchanged(this)
    {
      if data != null || max > MAX_BUFFER {
        return false;
      }
      data := new byte[max + ALIGN_PAYLOAD - 1](_ => 0);
      offset := (0 - header - address) % ALIGN_PAYLOAD;
      len, cap := 0, max;
      return true;
    }

    /** The first `n` bytes behind the offset. */
    ghost function Stored(n: nat): (s: seq<byte>)
      requires Valid() && data != null && n <= cap
      reads this, Owned()
    {
      data[offset..offset + n]
    }

    lemma StoredNothing()
      requires Valid() && data != null
      ensures Stored(0) == []
    {
    }

    /** Copies bytes to a position behind the offset. */
    method Put(at: nat, bytes: seq<byte>)
      requires Valid() && data != null && at + |bytes| <= cap
      modifies data
      ensures Valid() && Stored(at + |bytes|) == old(Stored(at)) + bytes
    {
      forall k | 0 <= k < |bytes| {
        data[offset + at + k] := bytes[k];
      }
    }

    /** `ssl_write_buffer_set_len` */
    method SetLen(n: nat)
      requires Valid() && data != null && n <= cap
      modifies this`len
      ensures Valid() && len == n && Contents() == Stored(n)
    {
      len := n;
    }

    /** `consume_buffer` */
    method Consume(n: nat)
      requires Valid() && data != null && n <= len
      modifies this
      ensures Valid() && data == old(data) && Contents() == old(Contents())[n..]
    {
      offset, len, cap := offset + n, len - n, cap - n;
    }

    /** `clear_buffer` */
    method Clear()
      modifies this
      ensures Valid() && data == null
    {
      data, offset, len, cap := null, 0, 0, 0;
    }

    /** One turn of the loop of `tls_write_buffer_flush`. */
    method FlushOnce(bio: Bio) returns (ret: int)
      requires Valid() && len > 0
      modifies this, bio
      ensures Valid() && data == old(data) && bio.wire + Contents() == old(bio.wire) + old(Contents())
      ensures if ret > 0 then len < old(len) else len == old(len)
      ensures bio.Willing() ==> ret > 0
    {
      ghost var c, w := Contents(), bio.wire;
      ret := bio.Write(data[offset..offset + len]);
      if ret <= 0 {
        assert w + c[..0] == w;
        return;
      }
      Consume(ret);
      Resplit(w, c, ret);
    }

    /** `tls_write_buffer_flush`: what the transport takes leaves the buffer; the buffer is
        released when it is empty. */
    method Flush(bio: Bio) returns (ret: int)
      requires Valid()
      modifies this, bio
      ensures Valid() && bio.wire + Contents() == old(bio.wire) + old(Contents())
      ensures ret > 0 ==> ret == 1 && data == null
      ensures ret <= 0 ==> len > 0 && old(len) > 0 && data == old(data)
      ensures bio.Willing() ==> ret > 0
    {
      while len > 0
        invariant Valid() && (data == null || data == old(data))
        invariant bio.wire + Contents() == old(bio.wire) + old(Contents())
        invariant len <= old(len)
        decreases len
      {
        ret := FlushOnce(bio);
        if ret <= 0 {
          return;
        }
      }
      assert Contents() == [];
      Clear();
      return 1;
    }

    /** `dtls_write_buffer_flush`: a packet that the transport does not take is dropped. */
    method FlushPacket(bio: Bio) returns (ret: int, ghost taken: nat)
      requires Valid()
      modifies this, bio
      ensures Valid() && (old(len) > 0 ==> data == null)
      ensures ret > 0 ==> ret == 1 && (taken > 0 <==> old(len) > 0)
      ensures ret <= 0 ==> old(len) > 0 && taken == 0
      ensures bio.Willing() ==> ret > 0
      ensures taken <= old(len) && bio.wire == old(bio.wire) + old(Contents())[..taken]
    {
      if len == 0 {
        assert bio.wire + [] == bio.wire;
        return 1, 0;
      }
      var r := bio.Write(data[offset..offset + len]);
      if r <= 0 {
        Clear();
        return r, 0;
      }
      taken := r;
      Clear();
      return 1, taken;
    }
  }

  lemma Resplit(w: seq<byte>, c: seq<byte>, r: nat)
    requires r <= |c|
    ensures (w + c[..r]) + c[r..] == w + c
  {
  }
}
