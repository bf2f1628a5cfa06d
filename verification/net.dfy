/** A TCP data connection as one endpoint sees it, and the receive loop both programs share. */
module Net {
  import opened Wire

  class Connection {
    // Bytes of the peer that are still to be received before the connection ends.
    var inbound: Bytes
    var outbound: Bytes

    constructor (inbound: Bytes)
      ensures this.inbound == inbound && outbound == []
    {
      this.inbound := inbound;
      outbound := [];
    }

    method Send(data: Bytes)
      modifies this`outbound
      ensures outbound == old(outbound) + data
    {
      outbound := outbound + data;
    }

    /** One `recv`: any positive number of the bytes asked for, 0 once the peer has gone. */
    method Recv(p: array<byte>, at: nat, n: nat) returns (sret: nat)
      requires 0 < n && at + n <= p.Length
      modifies this`inbound, p
      ensures sret == 0 <==> old(inbound) == []
      ensures sret <= n && sret <= |old(inbound)|
      ensures inbound == old(inbound)[sret..]
      ensures p[..] == old(p[..at]) + old(inbound)[..sret] + old(p[at + sret..])
    {
      if inbound == [] {
        assert p[..] == p[..at] + p[at..];
        return 0;
      }
      var k: nat :| 1 <= k <= n && k <= |inbound|;
      forall i | 0 <= i < k {
        p[at + i] := inbound[i];
      }
      inbound := inbound[k..];
      return k;
    }
  }

  /** A buffer with the first `n` bytes of `w` at a position. */
  function Patched(was: Bytes, at: nat, w: Bytes, n: nat): (r: Bytes)
    requires at + n <= |was| && n <= |w|
    ensures |r| == |was|
  {
    was[..at] + w[..n] + was[at + n..]
  }

  lemma PatchedStep(was: Bytes, at: nat, w: Bytes, n: nat, k: nat)
    requires at + n + k <= |was| && n + k <= |w|
    ensures var before := Patched(was, at, w, n);
            Patched(was, at, w, n + k) == before[..at + n] + w[n..][..k] + before[at + n + k..]
  {
    assert w[..n + k] == w[..n] + w[n..][..k];
  }

  lemma PatchedNothing(was: Bytes, at: nat, w: Bytes)
    requires at <= |was|
    ensures Patched(was, at, w, 0) == was
  {
  }

  /** The `recvn` loop. However the stream is cut into segments, it delivers the next `n` bytes; when
      fewer arrive, those that did are in the buffer and 0 is returned. The count is returned as an
      `int`, which 2^31 bytes or more do not fit. */
  method Recvn(c: Connection, buf: array<byte>, at: nat, n: int) returns (ret: int)
    requires n > 0 ==> at + n <= buf.Length
    requires at <= buf.Length
    modifies c`inbound, buf
    ensures RecvN(old(c.inbound), n).Some? ==>
              && ret == ToInt(n)
              && c.inbound == RecvN(old(c.inbound), n).value.1
              && buf[..] == Patched(old(buf[..]), at, old(c.inbound), n)
    ensures RecvN(old(c.inbound), n).None? ==>
              && ret == 0
              && (n <= 0 ==> c.inbound == old(c.inbound) && buf[..] == old(buf[..]))
              && (n > 0 ==>
                    && |old(c.inbound)| < n
                    && c.inbound == []
                    && buf[..] == Patched(old(buf[..]), at, old(c.inbound), |old(c.inbound)|))
  {
    hide Patched, ToInt;
    ToIntKeepsIff(0);
    var cursize := 0;
    ghost var w, was := c.inbound, buf[..];
    PatchedNothing(was, at, w);
    while cursize < n
      invariant 0 <= cursize
      invariant n > 0 ==> cursize <= n
      invariant n <= 0 ==> cursize == 0
      invariant cursize <= |w|
      invariant c.inbound == w[cursize..]
      invariant buf[..] == Patched(was, at, w, cursize)
    {
      ghost var before := buf[..];
      var sret := c.Recv(buf, at + cursize, n - cursize);
      if sret == 0 {
        return 0;
      }
      PatchedStep(was, at, w, cursize, sret);
      assert buf[..] == before[..at + cursize] + w[cursize..][..sret] + before[at + cursize + sret..];
      cursize := cursize + sret;
    }
    return ToInt(cursize);
  }

  /** The length in front of a train. */
  method ReceiveHeader(c: Connection) returns (ok: bool, n: int)
    modifies c`inbound
    ensures ok <==> RecvHeader(old(c.inbound)).Some?
    ensures ok ==> n == RecvHeader(old(c.inbound)).value.0
    ensures ok ==> c.inbound == RecvHeader(old(c.inbound)).value.1
    ensures FitsInt(n)
  {
    var length := new byte[4];
    var ret := Recvn(c, length, 0, 4);
    if ret <= 0 {
      return false, 0;
    }
    assert length[..] == old(c.inbound)[..4];
    HeaderFitsInt(length[..]);
    return true, Signed(length[..]);
  }

  method ReceiveBytes(c: Connection, n: int) returns (ok: bool, data: Bytes)
    requires FitsInt(n)
    modifies c`inbound
    ensures ok <==> RecvN(old(c.inbound), n).Some?
    ensures ok ==> data == RecvN(old(c.inbound), n).value.0
    ensures ok ==> c.inbound == RecvN(old(c.inbound), n).value.1
  {
    var buf := new byte[if n > 0 then n else 0];
    ghost var was := buf[..];
    ToIntKeepsIff(if n > 0 then n else 0);
    var ret := Recvn(c, buf, 0, n);
    if ret <= 0 {
      return false, [];
    }
    data := buf[..];
    assert data == was[..0] + RecvN(old(c.inbound), n).value.0 + was[0 + n..];
    return true, data;
  }

  /** Header and payload of one train. */
  method ReceiveTrain(c: Connection) returns (ok: bool, data: Bytes)
    modifies c`inbound
    ensures ok <==> RecvTrain(old(c.inbound)).Some?
    ensures ok ==> data == RecvTrain(old(c.inbound)).value.0
    ensures ok ==> c.inbound == RecvTrain(old(c.inbound)).value.1
  {
    var n;
    ok, n := ReceiveHeader(c);
    if !ok {
      return false, [];
    }
    ok, data := ReceiveBytes(c, n);
  }
}
