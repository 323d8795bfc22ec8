/** One direction of a connection: bytes travel in chunks of any size, until it breaks. */
module Connection {
  import opened Wrappers
  import opened WireFormat
  import opened GetTransfer

  function Least(a: nat, b: nat): nat {
    if a < b then a else b
  }

  /**
   `bytes` were sent and not yet read; `sendable` more can be sent before send fails, and `readable`
   more can be read before read fails.
  */
  class Channel {
    var bytes: seq<byte>
    var sendable: nat
    var readable: nat

    ghost predicate Valid()
      reads this
    {
      readable <= |bytes| + sendable
    }

    constructor (sendable: nat, readable: nat)
      requires readable <= sendable
      ensures Valid() && bytes == [] && this.sendable == sendable && this.readable == readable
    {
      bytes := [];
      this.sendable, this.readable := sendable, readable;
    }

    /**
     netwrite: it succeeds if and only if the connection lasts for all bytes; if not, those that it
     lasts for have been sent.
    */
    method NetWrite(buf: seq<byte>) returns (r: int)
      requires Valid()
      modifies this`bytes, this`sendable
      ensures Valid() && r == if |buf| <= old(sendable) then |buf| else -1
      ensures bytes == old(bytes) + buf[..Least(|buf|, old(sendable))]
      ensures sendable == old(sendable) - Least(|buf|, old(sendable))
    {
      var sz := 0;
      while true
        invariant 0 <= sz <= |buf| && sz + sendable == old(sendable)
        invariant bytes == old(bytes) + buf[..sz]
        decreases |buf| - sz
      {
        if sz < |buf| && sendable == 0 {
          return -1;
        }
        var cc :| 0 <= cc <= |buf| - sz && cc <= sendable && (sz < |buf| ==> 0 < cc);
        assert buf[..sz] + buf[sz..sz + cc] == buf[..sz + cc];
        bytes := bytes + buf[sz..sz + cc];
        sendable := sendable - cc;
        sz := sz + cc;
        if sz == |buf| {
          break;
        }
      }
      return sz;
    }

    /**
     netread into `buf` from position `at` on: it succeeds if and only if the connection lasts for
     `size` bytes; if not, those that it lasts for have been stored.  Either these bytes are on their
     way, or the connection breaks; otherwise the reader waits for ever.
    */
    method NetRead(buf: array<byte>, at: nat, size: nat) returns (r: int)
      requires Valid() && at + size <= buf.Length && Least(size, readable) <= |bytes|
      modifies this`bytes, this`readable, buf
      ensures Valid() && r == if size <= old(readable) then size else -1
      ensures bytes == old(bytes)[Least(size, old(readable))..]
      ensures readable == old(readable) - Least(size, old(readable))
      ensures buf[..] == Blit(old(buf[..]), at, old(bytes)[..Least(size, old(readable))])
    {
      var sz := 0;
      ghost var stream, was := bytes, buf[..];
      while true
        invariant sendable == old(sendable) && 0 <= sz <= size && sz + readable == old(readable)
        invariant Least(size, old(readable)) <= |stream| && sz <= |stream| && bytes == stream[sz..]
        invariant buf[..] == Blit(was, at, stream[..sz])
        decreases size - sz
      {
        if sz < size && readable == 0 {
          assert Least(size, old(readable)) == sz;
          return -1;
        }
        var cc :| 0 <= cc <= size - sz && cc <= readable && (sz < size ==> 0 < cc);
        NextChunk(buf, at, sz, cc, was, stream);
        sz := sz + cc;
        if sz == size {
          break;
        }
      }
      assert Least(size, old(readable)) == sz;
      return sz;
    }

    /** One more chunk of `stream` behind the first `sz` bytes of it. */
    method NextChunk(buf: array<byte>, at: nat, sz: nat, cc: nat, ghost was: seq<byte>, ghost stream: seq<byte>)
      requires sz + cc <= |stream| && at + sz + cc <= buf.Length == |was| && cc <= readable
      requires bytes == stream[sz..] && buf[..] == Blit(was, at, stream[..sz])
      modifies this`bytes, this`readable, buf
      ensures bytes == stream[sz + cc..] && readable == old(readable) - cc
      ensures buf[..] == Blit(was, at, stream[..sz + cc])
    {
      BlitMore(was, at, stream, sz, cc);
      Receive(buf, at + sz, cc);
    }

    /** One chunk arrives. */
    method Receive(buf: array<byte>, at: nat, cc: nat)
      requires at + cc <= buf.Length && cc <= |bytes| && cc <= readable
      modifies this`bytes, this`readable, buf
      ensures bytes == old(bytes)[cc..] && readable == old(readable) - cc
      ensures buf[..] == Blit(old(buf[..]), at, old(bytes)[..cc])
    {
      for i := 0 to cc
        invariant bytes == old(bytes) && readable == old(readable)
        invariant forall p :: 0 <= p < buf.Length ==>
                                buf[p] == if at <= p < at + i then bytes[p - at] else old(buf[p])
      {
        buf[at + i] := bytes[i];
      }
      bytes := bytes[cc..];
      readable := readable - cc;
      assert buf[..] == Blit(old(buf[..]), at, old(bytes)[..cc]);
    }
  }

  /** Storing the next chunk behind the earlier ones. */
  lemma BlitMore(buf: seq<byte>, at: nat, bytes: seq<byte>, sz: nat, cc: nat)
    requires sz + cc <= |bytes| && at + sz + cc <= |buf|
    ensures Blit(Blit(buf, at, bytes[..sz]), at + sz, bytes[sz..][..cc]) == Blit(buf, at, bytes[..sz + cc])
  {
  }

  /** A record is sent; what the connection lasts for of it is on its way. */
  method SendRecord(ch: Channel, c: Command, pad: seq<byte>) returns (ok: bool)
    requires ch.Valid() && ValidCommand(c) && |pad| == 11
    modifies ch`bytes, ch`sendable
    ensures ch.Valid() && (ok <==> TCMD_SIZE <= old(ch.sendable))
    ensures ch.bytes == old(ch.bytes) + Encode(c, pad)[..Least(TCMD_SIZE, old(ch.sendable))]
    ensures ch.sendable == old(ch.sendable) - Least(TCMD_SIZE, old(ch.sendable))
  {
    var r := ch.NetWrite(Encode(c, pad));
    ok := r >= 0;
  }

  /** The record that comes next is received with all its fields, if the connection lasts for it. */
  method ReceiveRecord(ch: Channel, ghost c: Command, ghost pad: seq<byte>) returns (got: Option<Command>)
    requires ch.Valid() && ValidCommand(c) && |pad| == 11 && Least(TCMD_SIZE, ch.readable) <= |ch.bytes|
    requires TCMD_SIZE <= ch.readable ==> ch.bytes[..TCMD_SIZE] == Encode(c, pad)
    modifies ch`bytes, ch`readable
    ensures ch.Valid() && got == if TCMD_SIZE <= old(ch.readable) then Some(c) else None
    ensures ch.bytes == old(ch.bytes)[Least(TCMD_SIZE, old(ch.readable))..]
    ensures ch.readable == old(ch.readable) - Least(TCMD_SIZE, old(ch.readable))
  {
    var hdr := new byte[TCMD_SIZE](_ => 0);
    var r := ch.NetRead(hdr, 0, TCMD_SIZE);
    if r < 0 {
      return None;
    }
    CommandRoundTrip(c, pad);
    assert hdr[..] == Encode(c, pad);
    return Some(Decode(hdr[..]));
  }
}
