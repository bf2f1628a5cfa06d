/** The server's side of a download: check the announced offset, choose a mode, send. */
module GetsServer {
  import opened Wire
  import opened Digest
  import opened Net

  /** What the handler does with a request; `NeverEnds` is a loop without progress. */
  datatype Answer = Replied(out: Bytes) | NoReply | NeverEnds

  /** File name, remaining size and total size. */
  function Prologue(name: Bytes, remaining: nat, total: nat): Bytes {
    Train(name + [0]) + Train(OffT(remaining)) + Train(OffT(total))
  }

  predicate SendsRaw(remaining: int) {
    remaining > LARGE_FILE_THRESHOLD
  }

  function FullHashTrain(h: Hash, s: Bytes): Bytes {
    Train(Sha(h, s) + [0])
  }

  /** The file's bytes from the accepted offset on, in the mode the server picks. */
  function Payload(s: Bytes): Bytes {
    if SendsRaw(|s|) then s else EncodeChunks(s) + END_MARK
  }

  function Reply(h: Hash, name: Bytes, s: Bytes, resume: int): Answer
    requires resume <= |s|
  {
    var remaining := |s| - resume;
    var head := Prologue(name, remaining, |s|);
    if remaining == 0 then Replied(head)
    else if resume >= 0 then Replied(head + Payload(s[resume..]) + FullHashTrain(h, s))
    else if SendsRaw(remaining) then Replied(head + s)
    else NeverEnds
  }

  /** The offset the server goes on from: the announced one if the hash of the announced part is
      the hash of as many bytes of the stored file, and the beginning otherwise. */
  function AcceptedOffset(h: Hash, s: Bytes, announced: nat, claim: Bytes): (resume: nat)
    requires announced <= |s|
    ensures resume <= |s|
  {
    if CStr(claim[..Min(SHA256_STR_LEN, |claim|)]) == Sha(h, s[..announced]) then announced else 0
  }

  function GetsReply(h: Hash, name: Bytes, s: Bytes, request: Bytes): Answer {
    match RecvTrain(request)
    case None => NoReply
    case Some((offset, rest)) =>
      var announced := ReadOffT(offset);
      if announced <= 0 then Reply(h, name, s, announced)
      else
        match RecvTrain(rest)
        case None => NoReply
        case Some((claim, _)) =>
          if announced > |s| then NeverEnds
          else Reply(h, name, s, AcceptedOffset(h, s, announced, claim))
  }

  /** `sendfile`: some positive part of what is asked for, 0 at the end of the file. */
  method Sendfile(c: Connection, fd: OpenFile, count: nat) returns (n: nat)
    requires count > 0 && fd.pos <= |fd.content|
    modifies c`outbound, fd
    ensures n <= count && fd.pos == old(fd.pos) + n <= |fd.content|
    ensures n == 0 <==> old(fd.pos) == |fd.content|
    ensures c.outbound == old(c.outbound) + fd.content[old(fd.pos)..fd.pos]
  {
    if fd.pos == |fd.content| {
      return 0;
    }
    n :| 1 <= n <= count && fd.pos + n <= |fd.content|;
    var chunk := fd.Read(n);
    c.Send(chunk);
  }

  /** The large-file loop: everything from the descriptor's position to the end of the file. */
  method SendRaw(c: Connection, fd: OpenFile, remaining: nat) returns (complete: bool)
    requires fd.pos <= |fd.content| && remaining >= |fd.content| - fd.pos
    modifies c`outbound, fd
    ensures c.outbound == old(c.outbound) + fd.content[old(fd.pos)..]
    ensures complete <==> remaining == |fd.content| - old(fd.pos)
  {
    var totalSent := 0;
    ghost var start := fd.pos;
    assert fd.content[start..start] == [];
    while totalSent < remaining
      invariant totalSent == fd.pos - start <= remaining
      invariant start <= fd.pos <= |fd.content|
      invariant c.outbound == old(c.outbound) + fd.content[start..fd.pos]
    {
      var n := Sendfile(c, fd, remaining - totalSent);
      if n == 0 {
        return false;
      }
      totalSent := totalSent + n;
      assert fd.content[start..fd.pos] == fd.content[start..fd.pos - n] + fd.content[fd.pos - n..fd.pos];
    }
    complete := true;
  }

  lemma ChunkStep(sent: Bytes, left: Bytes, length: nat)
    requires left != [] && length == Min(DATA_SIZE, |left|)
    ensures sent + Train(left[..length]) + EncodeChunks(left[length..]) == sent + EncodeChunks(left)
  {
    EncodeChunksStep(left, length);
    Assoc(sent, Train(left[..length]), EncodeChunks(left[length..]));
  }

  /** The small-file loop and its end mark. */
  method SendChunks(c: Connection, fd: OpenFile, remaining: nat)
    requires fd.pos + remaining == |fd.content|
    modifies c`outbound, fd
    ensures c.outbound == old(c.outbound) + EncodeChunks(fd.content[old(fd.pos)..]) + END_MARK
  {
    var offset := 0;
    ghost var start := fd.pos;
    ghost var encoded := c.outbound + EncodeChunks(fd.content[start..]);
    while offset < remaining
      invariant 0 <= offset <= remaining == |fd.content| - start
      invariant fd.pos == start + offset
      invariant c.outbound + EncodeChunks(fd.content[fd.pos..]) == encoded
    {
      ghost var left := fd.content[fd.pos..];
      ghost var sent := c.outbound;
      var length := if remaining - offset > DATA_SIZE then DATA_SIZE else remaining - offset;
      var data := fd.Read(length);
      offset := offset + |data|;
      c.Send(Train(data));
      assert data == left[..length] && fd.content[fd.pos..] == left[length..];
      ChunkStep(sent, left, length);
    }
    assert fd.content[fd.pos..] == [];
    assert c.outbound == encoded;
    c.Send(END_MARK);
  }

  lemma PartsSent(before: Bytes, a: Bytes, b: Bytes, c: Bytes)
    ensures (before + a)[|before|..] == a
    ensures (before + a + b)[|before|..] == a + b
    ensures (before + a + b + c)[|before|..] == a + b + c
  {
  }

  method SendPrologue(c: Connection, filename: Bytes, remainingSize: nat, totalSize: nat)
    modifies c`outbound
    ensures c.outbound == old(c.outbound) + Prologue(filename, remainingSize, totalSize)
  {
    c.Send(Train(filename + [0]));
    c.Send(Train(OffT(remainingSize)));
    c.Send(Train(OffT(totalSize)));
  }

  /** The file from the descriptor's position on, in the mode that suits what remains. */
  method SendPayload(c: Connection, fd: OpenFile)
    requires fd.pos <= |fd.content|
    modifies c`outbound, fd
    ensures c.outbound == old(c.outbound) + Payload(fd.content[old(fd.pos)..])
  {
    var remainingSize := |fd.content| - fd.pos;
    if remainingSize > LARGE_FILE_THRESHOLD {
      var _ := SendRaw(c, fd, remainingSize);
    } else {
      ghost var chunks := EncodeChunks(fd.content[fd.pos..]);
      SendChunks(c, fd, remainingSize);
      assert old(c.outbound) + chunks + END_MARK == old(c.outbound) + (chunks + END_MARK);
    }
  }

  method SendFullHash(h: Hash, c: Connection, content: Bytes)
    modifies c`outbound
    ensures c.outbound == old(c.outbound) + FullHashTrain(h, content)
  {
    var fd := new OpenFile(content);
    assert content[0..|content|] == content;
    var _, fullSha := CalculateFileSha256(h, fd, 0, |content|);
    c.Send(Train(fullSha + [0]));
  }

  /** Announcement, file and full hash, with the descriptor already at the accepted offset. */
  method SendReply(h: Hash, c: Connection, fd: OpenFile, filename: Bytes, resumeOffset: int) returns (ended: bool)
    requires resumeOffset <= |fd.content|
    requires fd.pos == if resumeOffset > 0 then resumeOffset else 0
    modifies c`outbound, fd
    ensures old(c.outbound) <= c.outbound
    ensures Reply(h, filename, fd.content, resumeOffset) ==
            if ended then Replied(c.outbound[|old(c.outbound)|..]) else NeverEnds
  {
    hide Prologue, Payload, FullHashTrain;
    var remainingSize := |fd.content| - resumeOffset;
    ghost var head := Prologue(filename, remainingSize, |fd.content|);
    SendPrologue(c, filename, remainingSize, |fd.content|);
    if remainingSize == 0 {
      PartsSent(old(c.outbound), head, [], []);
      return true;
    }
    if resumeOffset < 0 {
      // A negative offset asks for more bytes than there are.
      if remainingSize <= LARGE_FILE_THRESHOLD {
        return false;     // the read loop goes on sending trains without new bytes
      }
      var complete := SendRaw(c, fd, remainingSize);
      PartsSent(old(c.outbound), head, fd.content, []);
      return true;
    }
    ghost var left := fd.content[resumeOffset..];
    SendPayload(c, fd);
    SendFullHash(h, c, fd.content);
    PartsSent(old(c.outbound), head, Payload(left), FullHashTrain(h, fd.content));
    return true;
  }

  /** The handler from the opened blob on. */
  method HandleGets(h: Hash, c: Connection, filename: Bytes, content: Bytes) returns (ended: bool, replied: bool)
    modifies c
    ensures old(c.outbound) <= c.outbound
    ensures GetsReply(h, filename, content, old(c.inbound)) ==
            if !ended then NeverEnds
            else if !replied then NoReply
            else Replied(c.outbound[|old(c.outbound)|..])
  {
    var fd := new OpenFile(content);
    var ok, data := ReceiveTrain(c);
    if !ok {
      return true, false;
    }
    var resumeOffset := ReadOffT(data);
    if resumeOffset > 0 {
      var claim;
      ok, claim := ReceiveTrain(c);
      if !ok {
        return true, false;
      }
      var clientSha := CStr(claim[..Min(SHA256_STR_LEN, |claim|)]);
      var hashed, serverSha := CalculateFileSha256(h, fd, 0, resumeOffset);
      if !hashed {
        return false, false;
      }
      assert content[0..resumeOffset] == content[..resumeOffset];
      if clientSha != serverSha {
        resumeOffset := 0;
      }
      fd.Lseek(resumeOffset);
    }
    ended := SendReply(h, c, fd, filename, resumeOffset);
    replied := ended;
  }
}
