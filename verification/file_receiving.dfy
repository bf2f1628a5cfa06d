/** Receiving a file's bytes, as the client does for a download and the server for an upload: raw
    into a mapped file of the final size, or framed and written train by train. */
module FileReceiving {
  import opened Wire
  import opened Net

  /** `ftruncate`: cut, or extend with zero bytes. */
  function Resized(content: Bytes, size: nat): (r: Bytes)
    ensures |r| == size
  {
    if size <= |content| then content[..size] else content + seq(size - |content|, _ => 0)
  }

  /** `write` at a position within the file. */
  function Written(content: Bytes, pos: nat, data: Bytes): (r: Bytes)
    requires pos <= |content|
    ensures |r| == if pos + |data| > |content| then pos + |data| else |content|
    ensures forall i | 0 <= i < |r| :: r[i] == if pos <= i < pos + |data| then data[i - pos] else content[i]
  {
    content[..pos] + data + if pos + |data| <= |content| then content[pos + |data|..] else []
  }

  datatype Received = Received(complete: bool, content: Bytes, rest: Bytes)

  /** The mapped file once `w` has arrived at `pos`. */
  function Filled(mapped: Bytes, pos: nat, w: Bytes): (r: Bytes)
    requires pos <= |mapped|
    ensures |r| == |mapped|
  {
    var n := Min(|w|, |mapped| - pos);
    mapped[..pos] + w[..n] + mapped[pos + n..]
  }

  lemma FilledBy(mapped: Bytes, pos: nat, w: Bytes)
    requires pos <= |mapped|
    ensures var n := |mapped| - pos;
            Filled(mapped, pos, w) == if |w| >= n then mapped[..pos] + w[..n] + mapped[pos + n..]
                                      else mapped[..pos] + w + mapped[pos + |w|..]
  {
    assert w[..|w|] == w;
  }

  lemma FilledTail(mapped: Bytes, pos: nat, w: Bytes)
    requires pos <= |mapped| && |w| >= |mapped| - pos
    ensures Filled(mapped, pos, w)[pos..] == w[..|mapped| - pos]
  {
  }

  /** Which returned counts end the raw loop: the server takes positive ones only, the client all but
      0 and -1. A position in front of the mapping ends it as well. */
  predicate GivesUp(server: bool, pos: int, ret: int) {
    (if server then ret <= 0 else ret == 0 || ret == -1) || pos + ret < 0
  }

  /** The raw mode: what arrives goes straight into the mapped file, up to its end. The position moves
      on by the count `recvn` returns, which is an `int`. */
  function RecvRaw(server: bool, mapped: Bytes, pos: nat, w: Bytes): (r: Received)
    requires pos <= |mapped|
    ensures |r.content| == |mapped|
    decreases |w|
  {
    var n := |mapped| - pos;
    if n == 0 then Received(true, mapped, w)
    else if |w| < n then Received(false, Filled(mapped, pos, w), [])
    else if GivesUp(server, pos, ToInt(n)) then Received(false, Filled(mapped, pos, w), w[n..])
    else RecvRaw(server, Filled(mapped, pos, w), pos + ToInt(n), w[n..])
  }

  /** Less than 2^31 bytes are received in one round, which is complete when they have all arrived. */
  lemma RecvRawOfInt(server: bool, mapped: Bytes, pos: nat, w: Bytes)
    requires pos <= |mapped| && FitsInt(|mapped| - pos)
    ensures var n := |mapped| - pos;
            RecvRaw(server, mapped, pos, w) == Received(|w| >= n, Filled(mapped, pos, w), w[Min(|w|, n)..])
  {
    ToIntKeepsIff(|mapped| - pos);
    if |w| >= |mapped| - pos {
      assert RecvRaw(server, mapped, pos, w)
          == RecvRaw(server, Filled(mapped, pos, w), |mapped|, w[|mapped| - pos..]);
    }
  }

  lemma RecvRawCutShort(server: bool, mapped: Bytes, pos: nat, w: Bytes)
    requires pos <= |mapped| && |w| < |mapped| - pos
    ensures RecvRaw(server, mapped, pos, w) == Received(false, mapped[..pos] + w + mapped[pos + |w|..], [])
  {
    FilledBy(mapped, pos, w);
  }

  /** The raw mode completes a file exactly when all of it arrives and the count of what was asked for
      fits an `int`: from 2^31 bytes on it never does. */
  lemma RecvRawCompletesIff(server: bool, mapped: Bytes, pos: nat, w: Bytes)
    requires pos <= |mapped|
    ensures RecvRaw(server, mapped, pos, w).complete <==> |w| >= |mapped| - pos && FitsInt(|mapped| - pos)
  {
    var n := |mapped| - pos;
    if FitsInt(n) {
      RecvRawOfInt(server, mapped, pos, w);
    } else if |w| >= n && !GivesUp(server, pos, ToInt(n)) {
      ToIntOfRest(n);
    }
  }

  /** When the count of what was asked for, n, turns negative though all has arrived: the server gives up
      at once. The client gives up on -1 only; else it goes back by 2^32 - n and, if that is still in the
      file, overwrites what it has with what comes next, and then gives up as well. */
  lemma AfterNegativeCount(mapped: Bytes, pos: nat, w: Bytes, k: nat)
    requires pos <= |mapped| && 1 <= k <= 2147483648
    requires |mapped| - pos == 4294967296 - k && |w| >= |mapped| - pos
    ensures var n := |mapped| - pos;
            var filled := Filled(mapped, pos, w);
            && RecvRaw(true, mapped, pos, w) == Received(false, filled, w[n..])
            && (k == 1 || k > pos ==> RecvRaw(false, mapped, pos, w) == Received(false, filled, w[n..]))
            && (1 < k <= pos ==>
                  && RecvRaw(false, mapped, pos, w).content == Filled(filled, pos - k, w[n..])
                  && !RecvRaw(false, mapped, pos, w).complete)
  {
    hide Filled;
    var n := |mapped| - pos;
    assert ToInt(n) + k == 0;
    RecvRawCompletesIff(false, mapped, pos, w);
    if 1 < k <= pos {
      assert ToInt(4294967296) == 0;
      var filled := Filled(mapped, pos, w);
      assert RecvRaw(false, mapped, pos, w) == RecvRaw(false, filled, pos - k, w[n..]);
    }
  }

  /** The framed mode: whole trains are written one behind the other until the end mark. */
  function RecvFrames(content: Bytes, pos: nat, w: Bytes): Received
    requires pos <= |content|
    decreases |w|
  {
    match RecvHeader(w)
    case None => Received(false, content, [])
    case Some((n, rest)) =>
      if n == 0 then Received(true, content, rest)
      else
        match RecvN(rest, n)
        case None => Received(false, content, [])
        case Some((data, rest)) => RecvFrames(Written(content, pos, data), pos + |data|, rest)
  }

  // ----- the loops -----

  class LocalFile {
    var content: Option<Bytes>

    constructor (content: Option<Bytes>)
      ensures this.content == content
    {
      this.content := content;
    }
  }

  /** The raw loop over the mapped file `p`. */
  method ReceiveMapped(server: bool, c: Connection, p: array<byte>, base: nat) returns (complete: bool)
    requires base <= p.Length
    modifies c`inbound, p
    ensures RecvRaw(server, old(p[..]), base, old(c.inbound)) == Received(complete, p[..], c.inbound)
  {
    hide Filled, ToInt;
    var bytesReceived: nat := base;
    ghost var goal := RecvRaw(server, p[..], base, c.inbound);
    while bytesReceived < p.Length
      invariant bytesReceived <= p.Length
      invariant RecvRaw(server, p[..], bytesReceived, c.inbound) == goal
      decreases |c.inbound|
    {
      ghost var mapped, w := p[..], c.inbound;
      var n := p.Length - bytesReceived;
      var ret := Recvn(c, p, bytesReceived, n);
      FilledBy(mapped, bytesReceived, w);
      assert p[..] == Filled(mapped, bytesReceived, w);
      if GivesUp(server, bytesReceived, ret) {
        return false;
      }
      assert |w| >= n && ret == ToInt(n);
      bytesReceived := bytesReceived + ret;
    }
    return true;
  }

  method ReceiveRaw(server: bool, c: Connection, f: LocalFile, base: nat, size: nat) returns (complete: bool)
    requires f.content.Some? && base <= |f.content.value|
    modifies c`inbound, f
    ensures f.content.Some?
    ensures base >= size ==> complete && f.content.value == Resized(old(f.content).value, size)
                             && c.inbound == old(c.inbound)
    ensures base < size ==> Received(complete, f.content.value, c.inbound)
                            == RecvRaw(server, Resized(old(f.content).value, size), base, old(c.inbound))
  {
    hide RecvRaw;
    var p := new byte[size];
    var source := Resized(f.content.value, size);
    forall i | 0 <= i < size {
      p[i] := source[i];
    }
    assert p[..] == source;
    complete := true;
    if base < size {
      complete := ReceiveMapped(server, c, p, base);
    }
    f.content := Some(p[..]);
  }

  method ReceiveFrames(c: Connection, f: LocalFile, base: nat) returns (complete: bool)
    requires f.content.Some? && base <= |f.content.value|
    modifies c`inbound, f
    ensures f.content.Some?
    ensures complete == RecvFrames(old(f.content).value, base, old(c.inbound)).complete
    ensures f.content.value == RecvFrames(old(f.content).value, base, old(c.inbound)).content
    ensures complete ==> c.inbound == RecvFrames(old(f.content).value, base, old(c.inbound)).rest
  {
    var offset := base;
    ghost var goal := RecvFrames(f.content.value, base, c.inbound);
    while true
      invariant 0 <= offset
      invariant f.content.Some? && offset <= |f.content.value|
      invariant RecvFrames(f.content.value, offset, c.inbound) == goal
      decreases |c.inbound|
    {
      var ok, n := ReceiveHeader(c);
      if !ok {
        return false;
      }
      if n == 0 {
        return true;
      }
      var data;
      ok, data := ReceiveBytes(c, n);
      if !ok {
        return false;
      }
      f.content := Some(Written(f.content.value, offset, data));
      offset := offset + |data|;
    }
  }
}
