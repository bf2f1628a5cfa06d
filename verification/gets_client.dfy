/** The client's side of a download: announce what is there, then receive in the announced mode. */
module GetsClient {
  import opened Wire
  import opened Digest
  import opened Net
  import opened FileReceiving

  datatype Status = Success | Failure | Hang

  /** Return status, the local file afterwards (None: it does not exist) and, when the call
      succeeds, the bytes of the connection it has not consumed. */
  datatype GetsResult = GetsResult(status: Status, file: Option<Bytes>, rest: Bytes)

  function Content(file: Option<Bytes>): Bytes {
    match file
    case None => []
    case Some(content) => content
  }

  // ----- what is sent -----

  function GetsRequest(h: Hash, local: Bytes): Bytes {
    if local == [] then Train(OffT(0))
    else Train(OffT(|local|)) + Train(Sha(h, local) + [0])
  }

  // ----- what is done with the answer -----

  datatype Announcement = Announcement(remaining: int, total: int, rest: Bytes)

  function RecvSizes(w: Bytes): Option<Announcement> {
    match RecvTrain(w)
    case None => None
    case Some((remaining, rest)) =>
      match RecvTrain(rest)
      case None => None
      case Some((total, rest)) => Some(Announcement(ReadOffT(remaining), ReadOffT(total), rest))
  }

  function RecvAnnouncement(name: Bytes, w: Bytes): Option<Announcement> {
    match RecvTrain(w)
    case None => None
    case Some((data, rest)) =>
      if CStr(data[..|data| - 1]) != name then None else RecvSizes(rest)
  }

  /** The closing comparison of the two full hashes. */
  function Verified(h: Hash, content: Bytes, size: int, w: Bytes): GetsResult {
    if size > |content| then GetsResult(Hang, Some(content), [])
    else
      match RecvTrain(w)
      case None => GetsResult(Failure, Some(content), [])
      case Some((claim, rest)) =>
        if CStr(claim) == Sha(h, content[..if size < 0 then 0 else size])
        then GetsResult(Success, Some(content), rest)
        else GetsResult(Failure, Some(content), [])
  }

  predicate ReceivesRaw(size: int) {
    size > LARGE_FILE_THRESHOLD
  }

  /** From the opened (and possibly truncated) file on; `base` is where the new bytes go. */
  function RecvFile(h: Hash, content: Bytes, base: nat, remaining: int, w: Bytes): GetsResult
    requires base <= |content|
  {
    var size := remaining + base;
    if ReceivesRaw(size) then
      if base >= size then Verified(h, Resized(content, size), size, w)
      else
        var r := RecvRaw(false, Resized(content, size), base, w);
        if r.complete then Verified(h, r.content, size, r.rest)
        else GetsResult(Failure, Some(r.content), [])
    else
      var r := RecvFrames(content, base, w);
      if r.complete then Verified(h, r.content, size, r.rest)
      else GetsResult(Failure, Some(r.content), [])
  }

  /** The whole call on a connection that delivers exactly `w` before it ends. */
  function GetsOutcome(h: Hash, name: Bytes, file: Option<Bytes>, w: Bytes): GetsResult {
    match RecvAnnouncement(name, w)
    case None => GetsResult(Failure, file, [])
    case Some(a) =>
      if a.remaining == 0 then GetsResult(Success, file, a.rest)
      else if a.total == a.remaining then RecvFile(h, [], 0, a.remaining, a.rest)
      else if file == None then GetsResult(Failure, file, [])
      else RecvFile(h, file.value, |file.value|, a.remaining, a.rest)
  }

  /** The client opens the file with truncation: everything is to be sent again. */
  predicate Truncates(name: Bytes, w: Bytes) {
    var a := RecvAnnouncement(name, w);
    a.Some? && a.value.remaining != 0 && a.value.total == a.value.remaining
  }

  /** The same when the client may die right after it has truncated the file. */
  function MortalOutcome(h: Hash, name: Bytes, file: Option<Bytes>, w: Bytes, diesTruncated: bool): GetsResult {
    if diesTruncated && Truncates(name, w) then GetsResult(Failure, Some([]), [])
    else GetsOutcome(h, name, file, w)
  }

  // ----- the program -----

  method SendRequest(h: Hash, c: Connection, local: Bytes)
    modifies c`outbound
    ensures c.outbound == old(c.outbound) + GetsRequest(h, local)
  {
    hide Train, OffT, Sha;
    var resumeOffset := |local|;
    c.Send(Train(OffT(resumeOffset)));
    if resumeOffset > 0 {
      var fd := new OpenFile(local);
      assert local[0..resumeOffset] == local;
      var _, sha := CalculateFileSha256(h, fd, 0, resumeOffset);
      c.Send(Train(sha + [0]));
    }
  }

  method ReceiveAnnouncement(c: Connection, name: Bytes) returns (a: Option<(int, int)>)
    modifies c`inbound
    ensures a == match RecvAnnouncement(name, old(c.inbound))
                 case None => None
                 case Some(r) => Some((r.remaining, r.total))
    ensures a.Some? ==> c.inbound == RecvAnnouncement(name, old(c.inbound)).value.rest
  {
    var ok, data := ReceiveTrain(c);
    if !ok {
      return None;
    }
    if CStr(data[..|data| - 1]) != name {
      return None;
    }
    var remaining, total;
    ok, remaining := ReceiveTrain(c);
    if !ok {
      return None;
    }
    ok, total := ReceiveTrain(c);
    if !ok {
      return None;
    }
    return Some((ReadOffT(remaining), ReadOffT(total)));
  }

  method VerifyFullHash(h: Hash, c: Connection, content: Bytes, size: int) returns (status: Status)
    modifies c`inbound
    ensures status == Verified(h, content, size, old(c.inbound)).status
    ensures status.Success? ==> c.inbound == Verified(h, content, size, old(c.inbound)).rest
  {
    var fd := new OpenFile(content);
    var hashed, localFullSha := CalculateFileSha256(h, fd, 0, size);
    if !hashed {
      return Hang;
    }
    assert 0 < size ==> content[0..size] == content[..size];
    var ok, serverFullSha := ReceiveTrain(c);
    if !ok {
      return Failure;
    }
    return if CStr(serverFullSha) == localFullSha then Success else Failure;
  }

  method ReceiveFile(h: Hash, c: Connection, f: LocalFile, base: nat, remaining: int) returns (status: Status)
    requires f.content.Some? && base <= |f.content.value|
    modifies c`inbound, f
    ensures status == RecvFile(h, old(f.content).value, base, remaining, old(c.inbound)).status
    ensures f.content == RecvFile(h, old(f.content).value, base, remaining, old(c.inbound)).file
    ensures status.Success? ==>
              c.inbound == RecvFile(h, old(f.content).value, base, remaining, old(c.inbound)).rest
  {
    hide RecvRaw, RecvFrames, Resized, RecvTrain, CStr, Sha;
    var size := remaining + base;
    var complete;
    if size > LARGE_FILE_THRESHOLD {
      complete := ReceiveRaw(false, c, f, base, size);
    } else {
      complete := ReceiveFrames(c, f, base);
    }
    if !complete {
      return Failure;
    }
    status := VerifyFullHash(h, c, f.content.value, size);
  }

  /** `client_gets`: whatever the segmentation, it does what the outcome function says. */
  method ClientGets(h: Hash, c: Connection, f: LocalFile, name: Bytes, diesTruncated: bool)
    returns (status: Status)
    modifies c, f
    ensures c.outbound == old(c.outbound) + GetsRequest(h, Content(old(f.content)))
    ensures status == MortalOutcome(h, name, old(f.content), old(c.inbound), diesTruncated).status
    ensures f.content == MortalOutcome(h, name, old(f.content), old(c.inbound), diesTruncated).file
    ensures status.Success? ==> c.inbound == MortalOutcome(h, name, old(f.content), old(c.inbound), diesTruncated).rest
  {
    var local := Content(f.content);
    SendRequest(h, c, local);
    var a := ReceiveAnnouncement(c, name);
    if a == None {
      return Failure;
    }
    var (remaining, total) := a.value;
    if remaining == 0 {
      return Success;
    }
    var resumeOffset := |local|;
    if total != remaining {
      if f.content == None {
        return Failure;
      }
    } else {
      resumeOffset := 0;
      f.content := Some([]);
      if diesTruncated {
        return Failure;
      }
    }
    status := ReceiveFile(h, c, f, resumeOffset, remaining);
  }
}
