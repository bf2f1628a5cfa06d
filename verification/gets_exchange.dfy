/** One request and one answer: what either side makes of the other's bytes, cut or whole. */
module GetsExchange {
  import opened Wire
  import opened Digest
  import opened GetsServer
  import opened FileReceiving
  import opened GetsClient

  /** A file name as the protocol carries it, and a file size an `off_t` can hold. */
  predicate Sendable(name: Bytes, s: Bytes) {
    SendableName(name) && IsOffT(|s|)
  }

  predicate SendableName(name: Bytes) {
    0 !in name && FitsInt(|name| + 1)
  }

  /** The offset both sides go on from when the client holds `local`. */
  function Agreed(h: Hash, s: Bytes, local: Bytes): (a: nat)
    requires |local| <= |s|
    ensures a <= |s|
  {
    if Sha(h, local) == Sha(h, s[..|local|]) then |local| else 0
  }

  function Tail(h: Hash, s: Bytes, a: nat): Bytes
    requires a <= |s|
  {
    if a == |s| then [] else Payload(s[a..]) + FullHashTrain(h, s)
  }

  /** Everything the server writes once it has the whole request. */
  function Answered(h: Hash, name: Bytes, s: Bytes, a: nat): Bytes
    requires a <= |s|
  {
    Prologue(name, |s| - a, |s|) + Tail(h, s, a)
  }

  function ServerOutput(h: Hash, name: Bytes, s: Bytes, request: Bytes): Bytes {
    match GetsReply(h, name, s, request)
    case Replied(out) => out
    case NoReply => []
    case NeverEnds => []
  }

  // ----- the request -----

  lemma ReplyIsAnswered(h: Hash, name: Bytes, s: Bytes, a: nat)
    requires a <= |s|
    ensures Reply(h, name, s, a) == Replied(Answered(h, name, s, a))
  {
    hide Prologue, Payload, FullHashTrain;
    var head := Prologue(name, |s| - a, |s|);
    if a == |s| {
      assert head + [] == head;
    } else {
      Assoc(head, Payload(s[a..]), FullHashTrain(h, s));
    }
  }

  lemma ClaimUnderstood(h: Hash, local: Bytes)
    ensures CStr((Sha(h, local) + [0])[..SHA256_STR_LEN]) == Sha(h, local)
  {
    assert (Sha(h, local) + [0])[..SHA256_STR_LEN] == Sha(h, local);
    CStrOfTerminated(Sha(h, local), []);
  }

  /** A whole request is understood and answered from the agreed offset. */
  lemma RequestAnswered(h: Hash, name: Bytes, s: Bytes, local: Bytes)
    requires |local| <= |s| && IsOffT(|s|)
    ensures GetsReply(h, name, s, GetsRequest(h, local)) == Replied(Answered(h, name, s, Agreed(h, s, local)))
  {
    hide Reply, Answered;
    OffTRoundTrip(|local|);
    if local == [] {
      RecvTrainInvertsTrain(OffT(0), []);
      assert Train(OffT(0)) + [] == GetsRequest(h, local);
      assert s[..0] == local;
    } else {
      var claim := Sha(h, local) + [0];
      RecvTrainInvertsTrain(OffT(|local|), Train(claim));
      RecvTrainInvertsTrain(claim, []);
      assert Train(claim) + [] == Train(claim);
      ClaimUnderstood(h, local);
    }
    ReplyIsAnswered(h, name, s, Agreed(h, s, local));
  }

  /** The handler hangs exactly when the client holds more bytes than the stored file has, which is
      when the loop over the announced part of the stored file does not end. */
  lemma SpinsIffFileIsLonger(h: Hash, name: Bytes, s: Bytes, local: Bytes)
    requires IsOffT(|s|) && IsOffT(|local|)
    ensures GetsReply(h, name, s, GetsRequest(h, local)) == NeverEnds <==> |local| > |s|
    ensures GetsReply(h, name, s, GetsRequest(h, local)) == NeverEnds <==> !HashLoopEnds(|s|, 0, |local|)
  {
    hide Reply, Answered;
    HashLoopTerminatesIff(|s|, 0, |local|);
    if |local| <= |s| {
      RequestAnswered(h, name, s, local);
    } else {
      var claim := Sha(h, local) + [0];
      OffTRoundTrip(|local|);
      RecvTrainInvertsTrain(OffT(|local|), Train(claim));
      RecvTrainInvertsTrain(claim, []);
      assert Train(claim) + [] == Train(claim);
    }
  }

  /** A request cut short makes the handler give up without an answer. */
  lemma CutRequestUnanswered(h: Hash, name: Bytes, s: Bytes, local: Bytes, w: Bytes)
    requires IsOffT(|local|)
    requires w <= GetsRequest(h, local) && w != GetsRequest(h, local)
    ensures GetsReply(h, name, s, w) == NoReply
  {
    hide Reply;
    OffTRoundTrip(|local|);
    var offset := OffT(|local|);
    if local == [] {
      assert Train(OffT(0)) + [] == GetsRequest(h, local);
      RecvTrainOfPrefix(offset, [], w);
    } else {
      var claim := Sha(h, local) + [0];
      RecvTrainOfPrefix(offset, Train(claim), w);
      if |w| >= 4 + |offset| {
        var rest := w[4 + |offset|..];
        assert Train(claim) + [] == Train(claim);
        assert |rest| < 4 + |claim|;
        RecvTrainOfPrefix(claim, [], rest);
      }
    }
  }

  // ----- the announcement -----

  lemma SizesOfPrefix(remaining: nat, total: nat, tail: Bytes, w: Bytes)
    requires IsOffT(remaining) && IsOffT(total)
    requires w <= Train(OffT(remaining)) + (Train(OffT(total)) + tail)
    ensures |w| < 24 ==> RecvSizes(w) == None
    ensures |w| >= 24 ==>
              w[24..] <= tail && RecvSizes(w) == Some(Announcement(remaining, total, w[24..]))
  {
    OffTRoundTrip(remaining);
    OffTRoundTrip(total);
    RecvTrainOfPrefix(OffT(remaining), Train(OffT(total)) + tail, w);
    if |w| >= 12 {
      var rest := w[12..];
      RecvTrainOfPrefix(OffT(total), tail, rest);
      if |rest| >= 12 {
        assert rest[12..] == w[24..];
      }
    }
  }

  lemma PrologueAssoc(name: Bytes, remaining: nat, total: nat, tail: Bytes)
    ensures Prologue(name, remaining, total) + tail
         == Train(name + [0]) + (Train(OffT(remaining)) + (Train(OffT(total)) + tail))
  {
    hide Train, OffT;
    var x, y, z := Train(name + [0]), Train(OffT(remaining)), Train(OffT(total));
    Assoc(x + y, z, tail);
    Assoc(x, y, z + tail);
  }

  function PrologueLength(name: Bytes): nat {
    29 + |name|
  }

  /** The client has either no announcement at all or exactly the one that was sent. */
  lemma AnnouncementOfPrefix(name: Bytes, remaining: nat, total: nat, tail: Bytes, w: Bytes)
    requires Sendable(name, []) && IsOffT(remaining) && IsOffT(total)
    requires w <= Prologue(name, remaining, total) + tail
    ensures |w| < PrologueLength(name) ==> RecvAnnouncement(name, w) == None
    ensures |w| >= PrologueLength(name) ==>
              && w[PrologueLength(name)..] <= tail
              && RecvAnnouncement(name, w)
                 == Some(Announcement(remaining, total, w[PrologueLength(name)..]))
  {
    hide RecvSizes, OffT, Prologue, RecvTrain;
    PrologueAssoc(name, remaining, total, tail);
    var sizes := Train(OffT(remaining)) + (Train(OffT(total)) + tail);
    var first := name + [0];
    RecvTrainOfPrefix(first, sizes, w);
    if |w| >= 4 + |first| {
      var rest := w[4 + |first|..];
      assert first[..|first| - 1] == name;
      CStrOfTerminated(name, []);
      SizesOfPrefix(remaining, total, tail, rest);
      if |rest| >= 24 {
        assert rest[24..] == w[PrologueLength(name)..];
      }
    }
  }

  // ----- the file -----

  lemma WrittenAtEnd(content: Bytes, data: Bytes)
    ensures Written(content, |content|, data) == content + data
  {
  }

  /** Payload bytes in the whole trains at the front of `w`. */
  function PayloadIn(w: Bytes): nat
    decreases |w|
  {
    match RecvHeader(w)
    case None => 0
    case Some((n, rest)) =>
      match RecvN(rest, n)
      case None => 0
      case Some((data, rest)) => |data| + PayloadIn(rest)
  }

  /** Framed mode on a cut stream: the file is a longer prefix of `s` by exactly the whole trains;
      when the end mark is there the file is `s` and nothing behind the mark is touched. */
  lemma {:induction false} FramesOfPrefix(s: Bytes, a: nat, tail: Bytes, w: Bytes)
    requires a <= |s|
    requires w <= EncodeChunks(s[a..]) + (END_MARK + tail)
    ensures var r := RecvFrames(s[..a], a, w);
            && r.content <= s
            && |r.content| == a + PayloadIn(w)
            && (r.complete ==> r.content == s && r.rest <= tail)
            && (r.complete ==> |w| == |EncodeChunks(s[a..])| + 4 + |r.rest|)
            && (w == EncodeChunks(s[a..]) + (END_MARK + tail) ==> r.complete && r.rest == tail)
    decreases |s| - a
  {
    hide EncodeChunks, Train, RecvFrames, PayloadIn;
    if a == |s| {
      OnlyEndMark(s, tail, w);
    } else {
      var n := Min(DATA_SIZE, |s| - a);
      FirstTrain(s, a, tail);
      FramesStep(s, a, tail, w);
      if |w| >= 4 + n {
        FramesOfPrefix(s, a + n, tail, w[4 + n..]);
      }
    }
  }

  lemma OnlyEndMark(s: Bytes, tail: Bytes, w: Bytes)
    requires w <= EncodeChunks(s[|s|..]) + (END_MARK + tail)
    ensures EncodeChunks(s[|s|..]) == []
    ensures var r := RecvFrames(s[..|s|], |s|, w);
            && r.content == s && PayloadIn(w) == 0
            && (r.complete ==> r.rest <= tail && |w| == 4 + |r.rest|)
            && (w == EncodeChunks(s[|s|..]) + (END_MARK + tail) ==> r.complete && r.rest == tail)
  {
    assert s[|s|..] == [] && s[..|s|] == s;
    assert w <= END_MARK + tail;
    FramesOfEnd(s, tail, w);
  }

  lemma FramesOfEnd(content: Bytes, tail: Bytes, w: Bytes)
    requires w <= END_MARK + tail
    ensures var r := RecvFrames(content, |content|, w);
            && r.content == content && PayloadIn(w) == 0
            && (r.complete ==> r.rest <= tail && |w| == 4 + |r.rest|)
            && (w == END_MARK + tail ==> r.complete && r.rest == tail)
  {
    if |w| >= 4 {
      var rest := w[4..];
      assert w == END_MARK + rest;
      RecvEndMark(rest);
      assert rest <= tail;
    }
  }

  /** What is behind the first train of the stream for `s[a..]`. */
  function Behind(s: Bytes, a: nat, tail: Bytes): Bytes
    requires a < |s|
  {
    EncodeChunks(s[a + Min(DATA_SIZE, |s| - a)..]) + (END_MARK + tail)
  }

  lemma FirstTrain(s: Bytes, a: nat, tail: Bytes)
    requires a < |s|
    ensures var n := Min(DATA_SIZE, |s| - a);
            && EncodeChunks(s[a..]) + (END_MARK + tail) == Train(s[a..][..n]) + Behind(s, a, tail)
            && |EncodeChunks(s[a..])| == 4 + n + |EncodeChunks(s[a + n..])|
  {
    hide Train, EncodeChunks;
    var left := s[a..];
    var n := Min(DATA_SIZE, |left|);
    assert left[n..] == s[a + n..];
    EncodeChunksStep(left, n);
    Assoc(Train(left[..n]), EncodeChunks(left[n..]), END_MARK + tail);
  }

  /** The first train of a cut stream is lost, or written and behind it the rest of the stream. */
  lemma FramesStep(s: Bytes, a: nat, tail: Bytes, w: Bytes)
    requires a < |s|
    requires w <= Train(s[a..][..Min(DATA_SIZE, |s| - a)]) + Behind(s, a, tail)
    ensures var n := Min(DATA_SIZE, |s| - a);
            && (|w| < 4 + n ==> PayloadIn(w) == 0 && RecvFrames(s[..a], a, w) == Received(false, s[..a], []))
            && (|w| >= 4 + n ==>
                  && w[4 + n..] <= Behind(s, a, tail)
                  && PayloadIn(w) == n + PayloadIn(w[4 + n..])
                  && RecvFrames(s[..a], a, w) == RecvFrames(s[..a + n], a + n, w[4 + n..]))
  {
    hide Train, Behind, RecvHeader, RecvN, Written, RecvFrames, PayloadIn;
    var n := Min(DATA_SIZE, |s| - a);
    var data := s[a..][..n];
    RecvTrainOfPrefix(data, Behind(s, a, tail), w);
    TrainHeader(data, Behind(s, a, tail), w);
    if |w| < 4 + n {
      LostTrain(s[..a], a, w, n);
    } else {
      WholeTrain(s[..a], a, w, data);
      WrittenAtEnd(s[..a], data);
      assert s[..a] + data == s[..a + n];
    }
  }

  lemma LostTrain(content: Bytes, a: nat, w: Bytes, n: nat)
    requires a <= |content| && n > 0
    requires |w| >= 4 ==> RecvHeader(w) == Some((n, w[4..]))
    requires RecvTrain(w) == None
    ensures PayloadIn(w) == 0 && RecvFrames(content, a, w) == Received(false, content, [])
  {
  }

  lemma WholeTrain(content: Bytes, a: nat, w: Bytes, data: Bytes)
    requires a <= |content| && data != [] && |w| >= 4 + |data|
    requires RecvHeader(w) == Some((|data|, w[4..]))
    requires RecvTrain(w) == Some((data, w[4 + |data|..]))
    ensures PayloadIn(w) == |data| + PayloadIn(w[4 + |data|..])
    ensures RecvFrames(content, a, w) == RecvFrames(Written(content, a, data), a + |data|, w[4 + |data|..])
  {
  }

  /** The header read is the length sent. */
  lemma TrainHeader(data: Bytes, tail: Bytes, w: Bytes)
    requires 0 < |data| < 0x8000_0000
    requires w <= Train(data) + tail
    ensures |w| >= 4 ==> RecvHeader(w) == Some((|data|, w[4..]))
  {
    if |w| >= 4 {
      assert w[..4] == (Train(data) + tail)[..4] == IntHeader(|data|);
      IntHeaderRoundTrip(|data|);
    }
  }

  /** Raw mode on a cut stream: the file has its full length at once; it is `s` if all arrives. */
  lemma RawOfPrefix(server: bool, s: Bytes, tail: Bytes, w: Bytes)
    requires w <= s + tail
    ensures var r := RecvRaw(server, Resized([], |s|), 0, w);
            && (r.complete <==> |w| >= |s| && FitsInt(|s|))
            && (r.complete ==> r.content == s && r.rest <= tail && |w| == |s| + |r.rest|)
            && (|w| < |s| ==> r.content == w + seq(|s| - |w|, _ => 0))
            && (w == s + tail && FitsInt(|s|) ==> r.rest == tail)
  {
    hide RecvRaw;
    var zeros := Resized([], |s|);
    RecvRawCompletesIff(server, zeros, 0, w);
    if |w| < |s| {
      RecvRawCutShort(server, zeros, 0, w);
    } else if FitsInt(|s|) {
      RecvRawOfInt(server, zeros, 0, w);
      assert w[..|s|] == s;
    }
  }

  /** With the right content the closing comparison succeeds exactly when the whole hash has arrived. */
  lemma VerifiedOfPrefix(h: Hash, s: Bytes, w: Bytes)
    requires w <= FullHashTrain(h, s)
    ensures var r := Verified(h, s, |s|, w);
            && r.file == Some(s) && r.status != Hang
            && (r.status == Success <==> w == FullHashTrain(h, s))
            && (r.status == Success ==> r.rest == [])
  {
    var claim := Sha(h, s) + [0];
    assert Train(claim) + [] == FullHashTrain(h, s);
    RecvTrainOfPrefix(claim, [], w);
    assert s[..|s|] == s;
    CStrOfTerminated(Sha(h, s), []);
    assert Sha(h, s) + [0] + [] == claim;
  }
}
