/** A stream socket whose peer and network are scripted, and the loops that move whole buffers over it. */
module Transport {
  import opened Basics
  import opened Bytes
  import opened Errno

  /** How the transport treats one call: move at most n bytes, or fail. */
  datatype Behaviour = AtMost(n: nat) | Broken(errno: nat)

  predicate Reliable(script: seq<Behaviour>) {
    forall i :: 0 <= i < |script| ==> script[i].AtMost?
  }

  class Socket {
    /** Everything the peer will still send before it closes. */
    var incoming: seq<byte>
    var outgoing: seq<byte>
    /** An exhausted script moves as much as is asked. */
    var receives: seq<Behaviour>
    var sends: seq<Behaviour>

    constructor (incoming: seq<byte>, receives: seq<Behaviour>, sends: seq<Behaviour>)
      ensures this.incoming == incoming && this.receives == receives && this.sends == sends && outgoing == []
    {
      this.incoming, this.receives, this.sends, this.outgoing := incoming, receives, sends, [];
    }

    /** One receive call: some bytes in order, zero at end of stream, or an error. */
    method KernelRecv(want: nat) returns (errno: nat, bytes: seq<byte>)
      requires want > 0
      modifies this`incoming, this`receives
      ensures |bytes| <= want && old(incoming) == bytes + incoming
      ensures errno != 0 ==> bytes == []
      ensures errno == 0 && old(incoming) != [] ==> bytes != []
      ensures Reliable(old(receives)) ==> Reliable(receives) && errno == 0
    {
      var most := want;
      if receives != [] {
        var now := receives[0];
        receives := receives[1..];
        if now.Broken? {
          return if now.errno == 0 then EIO else now.errno, [];
        }
        most := if now.n == 0 then 1 else Min(now.n, want);
      }
      var n := Min(most, |incoming|);
      errno, bytes := 0, incoming[..n];
      incoming := incoming[n..];
    }

    method KernelSend(bytes: seq<byte>) returns (errno: nat, sent: nat)
      modifies this`outgoing, this`sends
      ensures sent <= |bytes| && outgoing == old(outgoing) + bytes[..sent]
      ensures errno != 0 ==> sent == 0
      ensures old(sends) == [] ==> sends == [] && errno == 0 && sent == |bytes|
    {
      sent := |bytes|;
      if sends != [] {
        var now := sends[0];
        sends := sends[1..];
        if now.Broken? {
          return if now.errno == 0 then EIO else now.errno, 0;
        }
        sent := Min(now.n, |bytes|);
      }
      errno := 0;
      outgoing := outgoing + bytes[..sent];
    }

    method SendAll(bytes: seq<byte>) returns (ret: nat)
      modifies this`outgoing, this`sends
      ensures ret == 0 ==> outgoing == old(outgoing) + bytes
      ensures old(sends) == [] ==> sends == [] && ret == 0
      ensures ret != 0 ==>
        exists k :: 0 <= k <= |bytes| && (k == 0 || k < |bytes|) && outgoing == old(outgoing) + bytes[..k]
    {
      var sent: nat;
      ret, sent := KernelSend(bytes);
      if ret == 0 && sent != |bytes| {
        ret := EIO;
      }
      assert bytes[..|bytes|] == bytes;
    }

    /**
     * However the transport cuts the stream, the loop returns exactly the next
     * data.Length bytes.  A failure has consumed fewer, in order.
     */
    method RecvAll(data: array<byte>) returns (ret: nat)
      modifies this`incoming, this`receives, data
      ensures ret == 0 ==> old(incoming) == data[..] + incoming
      ensures ret != 0 ==> exists k :: 0 <= k < data.Length && k <= |old(incoming)| && incoming == old(incoming)[k..]
      ensures Reliable(old(receives)) ==> Reliable(receives) && (ret == 0 <==> data.Length <= |old(incoming)|)
    {
      hide Reliable;
      var done := 0;
      ghost var whole := incoming;
      while done < data.Length
        invariant 0 <= done <= data.Length && done <= |whole|
        invariant data[..done] == whole[..done] && incoming == whole[done..]
        invariant Reliable(old(receives)) ==> Reliable(receives)
        decreases data.Length - done
      {
        var bytes: seq<byte>;
        ret, bytes := KernelRecv(data.Length - done);
        if ret != 0 {
          return;
        }
        if bytes == [] {
          return EIO;
        }
        forall i | 0 <= i < |bytes| {
          data[done + i] := bytes[i];
        }
        assert data[..done + |bytes|] == data[..done] + bytes;
        assert whole[..done + |bytes|] == whole[..done] + bytes;
        done := done + |bytes|;
      }
      return 0;
    }
  }
}
