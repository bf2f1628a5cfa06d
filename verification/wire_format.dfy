/** The protocol in absolute terms: which bytes stand where, and from which size on what happens. */
module WireFormat {
  import opened Wire
  import opened Digest
  import opened FileReceiving
  import opened GetsServer
  import opened GetsClient
  import opened GetsExchange
  import opened PutsExchange
  import opened Resume
  import opened Download

  // ----- reading the wire -----

  function ReadInt(w: Bytes, i: nat): int
    requires i + 4 <= |w|
  {
    var a: int, b: int, c: int, d: int := w[i], w[i + 1], w[i + 2], w[i + 3];
    a + 256 * b + 65536 * c + 16777216 * d
  }

  /** A length and that many bytes. */
  predicate FrameAt(w: Bytes, i: nat, data: Bytes) {
    i + 4 + |data| <= |w| && ReadInt(w, i) == |data| && w[i + 4..i + 4 + |data|] == data
  }

  /** The length 8 and a number of eight bytes, the lowest first. */
  predicate SizeAt(w: Bytes, i: nat, n: nat) {
    i + 12 <= |w| && ReadInt(w, i) == 8 && ReadInt(w, i + 4) + 4294967296 * ReadInt(w, i + 8) == n
  }

  lemma UnsignedOfFour(b: Bytes)
    requires |b| >= 4
    ensures Unsigned(b) == ReadInt(b, 0) + 4294967296 * Unsigned(b[4..])
  {
    assert b[1..][1..] == b[2..] && b[2..][1..] == b[3..] && b[3..][1..] == b[4..];
  }

  lemma IntHeaderBytes(n: nat)
    requires n < 2147483648
    ensures ReadInt(IntHeader(n), 0) == n
  {
    PowersOf256();
    UnsignedInvertsLittleEndian(n, 4);
    UnsignedOfFour(IntHeader(n));
    assert IntHeader(n)[4..] == [];
  }

  lemma OffTBytes(n: nat)
    requires IsOffT(n)
    ensures |OffT(n)| == 8 && ReadInt(OffT(n), 0) + 4294967296 * ReadInt(OffT(n), 4) == n
  {
    PowersOf256();
    UnsignedInvertsLittleEndian(n, 8);
    UnsignedOfFour(OffT(n));
    UnsignedOfFour(OffT(n)[4..]);
    assert OffT(n)[4..][4..] == [];
  }

  lemma TrainAt(before: Bytes, data: Bytes, after: Bytes)
    requires |data| < 2147483648
    ensures FrameAt(before + (Train(data) + after), |before|, data)
  {
    hide IntHeader;
    IntHeaderBytes(|data|);
    var w := before + (Train(data) + after);
    assert w[|before|..|before| + 4] == IntHeader(|data|);
    assert w[|before| + 4..|before| + 4 + |data|] == data;
  }

  lemma SizeTrainAt(before: Bytes, n: nat, after: Bytes)
    requires IsOffT(n)
    ensures SizeAt(before + (Train(OffT(n)) + after), |before|, n)
  {
    hide Train, OffT;
    OffTBytes(n);
    TrainAt(before, OffT(n), after);
    ReadInFrame(before + (Train(OffT(n)) + after), |before|, OffT(n), 0);
    ReadInFrame(before + (Train(OffT(n)) + after), |before|, OffT(n), 4);
  }

  lemma ReadInFrame(w: Bytes, i: nat, data: Bytes, k: nat)
    requires FrameAt(w, i, data) && k + 4 <= |data|
    ensures ReadInt(w, i + 4 + k) == ReadInt(data, k)
  {
    var read := w[i + 4..i + 4 + |data|];
    assert read[k] == w[i + 4 + k] && read[k + 1] == w[i + 4 + k + 1];
    assert read[k + 2] == w[i + 4 + k + 2] && read[k + 3] == w[i + 4 + k + 3];
  }

  // ----- bodies -----

  /** The body of a file of up to 104857600 bytes: train `j` carries the bytes from 4096 * j on, 4096 of
      them or those left. */
  lemma {:induction false} BodyTrains(x: Bytes, j: nat)
    requires 4096 * j < |x|
    ensures FrameAt(EncodeChunks(x), 4100 * j, x[4096 * j..Min(4096 * (j + 1), |x|)])
    decreases j
  {
    hide Train, EncodeChunks;
    var n := Min(DATA_SIZE, |x|);
    EncodeChunksStep(x, n);
    if j == 0 {
      TrainAt([], x[..n], EncodeChunks(x[n..]));
      assert [] + (Train(x[..n]) + EncodeChunks(x[n..])) == EncodeChunks(x);
      assert x[..n] == x[0..n];
    } else {
      BodyTrains(x[n..], j - 1);
      SliceOfRest(x, n, 4096 * j, Min(4096 * (j + 1), |x|));
      FrameFurther(Train(x[..n]), EncodeChunks(x[n..]), 4100 * (j - 1), x[4096 * j..Min(4096 * (j + 1), |x|)]);
    }
  }

  lemma SliceOfRest(x: Bytes, n: nat, i: nat, j: nat)
    requires n <= i <= j <= |x|
    ensures x[n..][i - n..j - n] == x[i..j]
  {
  }

  lemma FrameFurther(before: Bytes, w: Bytes, i: nat, data: Bytes)
    requires FrameAt(w, i, data)
    ensures FrameAt(before + w, |before| + i, data)
  {
    assert (before + w)[|before| + i + 4..|before| + i + 4 + |data|] == w[i + 4..i + 4 + |data|];
  }

  lemma FrameNearer(w: Bytes, after: Bytes, i: nat, data: Bytes)
    requires FrameAt(w, i, data)
    ensures FrameAt(w + after, i, data)
  {
    assert (w + after)[i + 4..i + 4 + |data|] == w[i + 4..i + 4 + |data|];
  }

  /** Up to 104857600 bytes: every train, then a length 0. Beyond: the bytes themselves. */
  lemma BodyFormat(x: Bytes, j: nat)
    ensures 4096 * j < |x| <= 104857600 ==>
              FrameAt(Payload(x), 4100 * j, x[4096 * j..Min(4096 * (j + 1), |x|)])
    ensures |x| <= 104857600 ==> |Payload(x)| == |x| + 4 * ((|x| + 4095) / 4096) + 4
    ensures |x| <= 104857600 ==> FrameAt(Payload(x), |Payload(x)| - 4, [])
    ensures |x| > 104857600 ==> Payload(x) == x
  {
    hide EncodeChunks, Train, IntHeader;
    if |x| <= 104857600 {
      BodyLength(x);
      if 4096 * j < |x| {
        BodyTrains(x, j);
        FrameNearer(EncodeChunks(x), END_MARK, 4100 * j, x[4096 * j..Min(4096 * (j + 1), |x|)]);
      }
      EndMarkFrame();
      FrameFurther(EncodeChunks(x), END_MARK, 0, []);
    }
  }

  lemma EndMarkFrame()
    ensures |END_MARK| == 4 && FrameAt(END_MARK, 0, [])
  {
    IntHeaderBytes(0);
  }

  lemma {:induction false} BodyLength(x: Bytes)
    ensures |EncodeChunks(x)| == |x| + 4 * ((|x| + 4095) / 4096)
    decreases |x|
  {
    hide EncodeChunks;
    if x == [] {
      NoChunks();
    } else {
      var n := Min(DATA_SIZE, |x|);
      EncodeChunksStep(x, n);
      BodyLength(x[n..]);
      OneTrainLess(|x|, n);
    }
  }

  lemma OneTrainLess(size: nat, n: nat)
    requires size > 0 && n == Min(4096, size)
    ensures (size + 4095) / 4096 == (size - n + 4095) / 4096 + 1
  {
  }

  // ----- a download -----

  /** The request: the size of the copy, and if it is not empty its hash as 64 digits and a NUL. */
  lemma RequestFormat(h: Hash, local: Bytes)
    requires IsOffT(|local|)
    ensures var w := GetsRequest(h, local);
            && SizeAt(w, 0, |local|)
            && if local == [] then |w| == 12 else |w| == 81 && FrameAt(w, 12, Hex(h(local)) + [0])
  {
    hide Train, OffT;
    OffTBytes(|local|);
    if local == [] {
      SizeTrainAt([], 0, []);
      assert [] + (Train(OffT(0)) + []) == GetsRequest(h, local);
    } else {
      var hash := Sha(h, local) + [0];
      SizeTrainAt([], |local|, Train(hash));
      assert [] + (Train(OffT(|local|)) + Train(hash)) == GetsRequest(h, local);
      TrainAt(Train(OffT(|local|)), hash, []);
      assert Train(OffT(|local|)) + (Train(hash) + []) == GetsRequest(h, local);
    }
  }

  lemma AnnouncementFormat(name: Bytes, remaining: nat, total: nat, tail: Bytes)
    requires SendableName(name) && IsOffT(remaining) && IsOffT(total)
    ensures var w := Prologue(name, remaining, total) + tail;
            && FrameAt(w, 0, name + [0])
            && SizeAt(w, 5 + |name|, remaining)
            && SizeAt(w, 17 + |name|, total)
            && w[29 + |name|..] == tail
  {
    hide Train, OffT;
    var a, b, c := Train(name + [0]), Train(OffT(remaining)), Train(OffT(total));
    var w := Prologue(name, remaining, total) + tail;
    OffTBytes(remaining);
    OffTBytes(total);
    assert w == [] + (a + (b + (c + tail))) == a + (b + (c + tail)) == (a + b) + (c + tail);
    TrainAt([], name + [0], b + (c + tail));
    SizeTrainAt(a, remaining, c + tail);
    SizeTrainAt(a + b, total, tail);
  }

  /** The answer to a client that holds a prefix of the file: name, bytes missing, size of the file. If
      nothing is missing that is all. Up to 104857600 missing bytes come in trains, more of them as they
      are, and at the end comes the hash of the whole file. */
  lemma AnswerFormat(h: Hash, name: Bytes, s: Bytes, local: Bytes)
    requires Sendable(name, s) && local <= s
    ensures var w := ServerOutput(h, name, s, GetsRequest(h, local));
            var k, missing := |name| + 29, |s| - |local|;
            && |w| >= k && FrameAt(w, 0, name + [0])
            && SizeAt(w, 5 + |name|, missing) && SizeAt(w, 17 + |name|, |s|)
            && (missing == 0 ==> |w| == k)
            && (0 < missing <= 104857600 ==>
                  FrameAt(w[k..], 0, s[|local|..Min(|local| + 4096, |s|)]))
            && (missing > 104857600 ==> |w| == k + missing + 69 && w[k..k + missing] == s[|local|..])
            && (missing > 0 ==> |w| >= k + 69 && FrameAt(w, |w| - 69, Hex(h(s)) + [0]))
  {
    hide Prologue, Tail, GetsRequest, GetsReply, Agreed, FrameAt, SizeAt;
    var a := |local|;
    var head, tail := Prologue(name, |s| - a, |s|), Tail(h, s, a);
    RequestAnswered(h, name, s, local);
    SmallAgreed(h, s, local);
    AnnouncementFormat(name, |s| - a, |s|, tail);
    WholeAnswer(h, name, s, a);
    if a < |s| {
      TailFormat(h, s, a);
      FrameFurther(head, tail, |tail| - 69, Hex(h(s)) + [0]);
      if |s| - a > 104857600 {
        SliceFurther(head, tail, |s| - a);
      }
    } else {
      TailOfAll(h, s);
    }
  }

  lemma SliceFurther(before: Bytes, w: Bytes, n: nat)
    requires n <= |w|
    ensures (before + w)[|before|..|before| + n] == w[..n]
  {
  }

  lemma TailFormat(h: Hash, s: Bytes, a: nat)
    requires a < |s|
    ensures var t, missing := Tail(h, s, a), |s| - a;
            && (missing <= 104857600 ==> FrameAt(t, 0, s[a..Min(a + 4096, |s|)]))
            && (missing > 104857600 ==> |t| == missing + 69 && t[..missing] == s[a..])
            && |t| >= 69 && FrameAt(t, |t| - 69, Hex(h(s)) + [0])
  {
    hide Payload, FullHashTrain, FrameAt;
    var x := s[a..];
    BodyFormat(x, 0);
    ClosingHash(h, s, Payload(x));
    if |x| <= 104857600 {
      assert x[0..Min(4096, |x|)] == s[a..Min(a + 4096, |s|)];
      FrameNearer(Payload(x), FullHashTrain(h, s), 0, x[0..Min(4096, |x|)]);
    } else {
      assert (x + FullHashTrain(h, s))[..|x|] == x;
    }
  }

  lemma ClosingHash(h: Hash, s: Bytes, before: Bytes)
    ensures |FullHashTrain(h, s)| == 69
    ensures FrameAt(before + FullHashTrain(h, s), |before|, Hex(h(s)) + [0])
  {
    hide Train;
    TrainAt(before, Hex(h(s)) + [0], []);
    assert Train(Hex(h(s)) + [0]) + [] == FullHashTrain(h, s);
  }

  /** Any offset with any hash: the transfer goes on from the offset if the hash is that of as many bytes
      of the file, and starts over if not. */
  lemma OffsetDecides(h: Hash, name: Bytes, s: Bytes, offset: nat, claim: Bytes)
    requires IsOffT(|s|) && 0 < offset <= |s| && 0 !in claim && |claim| <= 64
    ensures GetsReply(h, name, s, Train(OffT(offset)) + Train(claim + [0]))
         == Replied(Answered(h, name, s, if claim == Hex(h(s[..offset])) then offset else 0))
  {
    hide Train, OffT, Reply, Answered, RecvTrain, CStr;
    OffTRoundTrip(offset);
    OffTBytes(offset);
    RecvTrainInvertsTrain(OffT(offset), Train(claim + [0]));
    RecvTrainInvertsTrain(claim + [0], []);
    assert Train(claim + [0]) + [] == Train(claim + [0]);
    ClaimRead(claim);
    ReplyIsAnswered(h, name, s, offset);
    ReplyIsAnswered(h, name, s, 0);
  }

  lemma ClaimRead(claim: Bytes)
    requires 0 !in claim && |claim| <= 64
    ensures CStr((claim + [0])[..Min(64, |claim| + 1)]) == claim
  {
    hide CStr;
    CStrOfTerminated(claim, []);
    var read := (claim + [0])[..Min(64, |claim| + 1)];
    if |claim| < 64 {
      assert read == claim + [0] + [];
    } else {
      assert read == claim;
    }
  }

  /** A negative offset is not refused: the server announces more bytes than there are. If they are more
      than 104857600 it sends the file without a hash, else it never ends. */
  lemma NegativeOffset(h: Hash, name: Bytes, s: Bytes, data: Bytes, rest: Bytes)
    requires 0 < |data| && FitsInt(|data|) && ReadOffT(data) < 0
    ensures var announced := |s| - ReadOffT(data);
            GetsReply(h, name, s, Train(data) + rest)
            == if announced > 104857600 then Replied(Prologue(name, announced, |s|) + s) else NeverEnds
  {
    hide Train, ReadOffT, Prologue;
    RecvTrainInvertsTrain(data, rest);
  }

  /** An answer for another file is refused, and the local file stays. */
  lemma OtherNameRefused(h: Hash, name: Bytes, other: Bytes, file: Option<Bytes>, rest: Bytes)
    requires SendableName(other) && other != name
    ensures GetsOutcome(h, name, file, Train(other + [0]) + rest) == GetsResult(Failure, file, [])
    ensures RecvOffer(name, Train(other + [0]) + rest) == None
  {
    hide Train, RecvTrain, CStr, RecvSizes, RecvSizeAndHash;
    RecvTrainInvertsTrain(other + [0], rest);
    CStrOfTerminated(other, []);
    assert (other + [0])[..|other|] == other;
  }

  /** A file received to the end is accepted exactly with the hash of its bytes. */
  lemma ClosingHashDecides(h: Hash, x: Bytes, claim: Bytes)
    requires 0 < |x| < 2147483648 && 0 !in claim && FitsInt(|claim| + 1)
    ensures var r := RecvFile(h, [], 0, |x|, Payload(x) + Train(claim + [0]));
            r.file == Some(x) && r.status == if claim == Hex(h(x)) then Success else Failure
  {
    hide EncodeChunks, Train, RecvFrames, RecvRaw, Resized, Verified, PayloadIn;
    var tail := Train(claim + [0]);
    if |x| > LARGE_FILE_THRESHOLD {
      RawOfPrefix(false, x, tail, x + tail);
    } else {
      Assoc(EncodeChunks(x), END_MARK, tail);
      assert x[0..] == x && x[..0] == [];
      FramesOfPrefix(x, 0, tail, EncodeChunks(x) + (END_MARK + tail));
    }
    VerifiedIff(h, x, claim);
  }

  lemma VerifiedIff(h: Hash, x: Bytes, claim: Bytes)
    requires 0 !in claim && FitsInt(|claim| + 1)
    ensures var r := Verified(h, x, |x|, Train(claim + [0]));
            r.file == Some(x) && r.status == if claim == Hex(h(x)) then Success else Failure
  {
    hide Train, RecvTrain, CStr;
    RecvTrainInvertsTrain(claim + [0], []);
    assert Train(claim + [0]) + [] == Train(claim + [0]);
    CStrOfTerminated(claim, []);
    assert claim + [0] + [] == claim + [0];
    assert x[..|x|] == x;
  }

  /** An uninterrupted download into a fresh file yields the file exactly if it has less than 2^31
      bytes. */
  lemma FreshDownloadSucceedsIff(h: Hash, name: Bytes, s: Bytes, cut: Cut)
    requires Sendable(name, s)
    ensures var r := Attempt(h, name, s, None, cut);
            Whole(h, name, s, None, cut) ==>
              (r.status == Success && Content(r.file) == s && r.rest == [] <==> |s| < 2147483648)
  {
    hide Attempt, Whole;
    assert s[..0] == [];
    UninterruptedDownloadSucceedsIff(h, name, s, None, cut);
  }

  /** Up to 104857600 bytes: whatever the cuts, a prefix of the file is left. Beyond: nothing, or a file
      of full length. */
  lemma CutDownloadsLeave(h: Hash, name: Bytes, s: Bytes, cuts: seq<Cut>)
    requires Sendable(name, s)
    ensures var local := Content(AfterAttempts(h, name, s, None, cuts));
            if |s| <= 104857600 then local <= s else |local| == 0 || |local| == |s|
  {
    hide AfterAttempts;
    AttemptsKeepResumable(h, name, s, None, cuts);
  }

  /** Up to 104857600 bytes: an attempt cut behind its j-th train leaves the copy as much longer. */
  lemma SmallDownloadGoesOn(h: Hash, name: Bytes, s: Bytes, file: Option<Bytes>, cut: Cut, j: nat)
    requires Sendable(name, s) && |s| <= 104857600 && Content(file) <= s && |Content(file)| + 4096 * j <= |s|
    requires Content(file) != s && !cut.diesTruncated
    requires cut.request >= |GetsRequest(h, Content(file))| && cut.reply == |name| + 29 + 4100 * j
    ensures Content(Attempt(h, name, s, file, cut).file) == s[..|Content(file)| + 4096 * j]
  {
    hide GetsOutcome, Answered, PayloadIn, Delivered, GetsRequest, Truncates, Attempt, Agreed;
    var local := Content(file);
    var a := |local|;
    var w := Delivered(h, name, s, file, cut);
    SmallAgreed(h, s, local);
    DeliveredIsPrefix(h, name, s, file, cut);
    CutBehindTrains(h, name, s, a, j);
    SmallAttemptGrowsByPayload(h, name, s, file, cut);
    AttemptKeepsResumable(h, name, s, file, cut);
    assert Content(Attempt(h, name, s, file, cut).file) <= s;
  }

  lemma CutBehindTrains(h: Hash, name: Bytes, s: Bytes, a: nat, j: nat)
    requires a < |s| <= 104857600 && a + 4096 * j <= |s|
    ensures var w := Prefix(Answered(h, name, s, a), |name| + 29 + 4100 * j);
            |w| >= PrologueLength(name) && PayloadIn(w[PrologueLength(name)..]) == 4096 * j
  {
    hide Answered, EncodeChunks, PayloadIn, FullHashTrain;
    var tail := FullHashTrain(h, s);
    WholeAnswer(h, name, s, a);
    Assoc(EncodeChunks(s[a..]), END_MARK, tail);
    var stream := EncodeChunks(s[a..]) + (END_MARK + tail);
    assert Tail(h, s, a) == stream;
    BodyLength(s[a..]);
    TrainsFit(|s| - a, j);
    var w := Answered(h, name, s, a);
    var cut := Prefix(w, |name| + 29 + 4100 * j);
    assert cut[PrologueLength(name)..] == w[PrologueLength(name)..][..4100 * j];
    PayloadOfTrains(s, a, tail, stream[..4100 * j], j);
  }

  lemma TrainsFit(size: nat, j: nat)
    requires 4096 * j <= size
    ensures 4100 * j <= size + 4 * ((size + 4095) / 4096)
  {
  }

  lemma {:induction false} PayloadOfTrains(s: Bytes, a: nat, tail: Bytes, w: Bytes, j: nat)
    requires a + 4096 * j <= |s| && |w| == 4100 * j
    requires w <= EncodeChunks(s[a..]) + (END_MARK + tail)
    ensures PayloadIn(w) == 4096 * j
    decreases j
  {
    hide EncodeChunks, Train, PayloadIn;
    if j == 0 {
      NothingInNothing();
    } else {
      FirstTrain(s, a, tail);
      FramesStep(s, a, tail, w);
      PayloadOfTrains(s, a + 4096, tail, w[4100..], j - 1);
    }
  }

  /** A client that dies right after it has truncated the file leaves an empty one. */
  lemma DeathLeavesNothing(h: Hash, name: Bytes, s: Bytes, file: Option<Bytes>, cut: Cut)
    requires Sendable(name, s) && |Content(file)| <= |s| && s != []
    requires Agreed(h, s, Content(file)) == 0
    requires cut.request >= |GetsRequest(h, Content(file))| && cut.reply >= |name| + 29 && cut.diesTruncated
    ensures Attempt(h, name, s, file, cut) == GetsResult(Failure, Some([]), [])
  {
    hide Answered, Agreed, GetsRequest, GetsOutcome, Truncates, Delivered, Tail;
    DeliveredIsPrefix(h, name, s, file, cut);
    WholeAnswer(h, name, s, 0);
    OutcomeOfPrefix(h, name, s, file, Delivered(h, name, s, file, cut));
  }

  /** Asked to go on with a file that is not there, the client gives up without creating it. */
  lemma NothingToGoOnWith(h: Hash, name: Bytes, remaining: nat, total: nat, tail: Bytes)
    requires SendableName(name) && IsOffT(remaining) && IsOffT(total) && remaining != 0 && remaining != total
    ensures GetsOutcome(h, name, None, Prologue(name, remaining, total) + tail) == GetsResult(Failure, None, [])
  {
    hide Prologue, RecvAnnouncement;
    AnnouncementOfPrefix(name, remaining, total, tail, Prologue(name, remaining, total) + tail);
    PrologueHasLength(name, remaining, total);
  }

  lemma PrologueHasLength(name: Bytes, remaining: nat, total: nat)
    ensures |Prologue(name, remaining, total)| == PrologueLength(name)
  {
  }

  /** Told to verify more bytes than it has, the client never ends. */
  lemma VerifyHangsIff(h: Hash, content: Bytes, size: int, w: Bytes)
    ensures Verified(h, content, size, w).status == Hang <==> size > |content|
    ensures size <= |content| && size < 0 ==> Verified(h, content, size, w) == Verified(h, content, 0, w)
  {
  }

  // ----- an upload -----

  /** What the client writes: name, size, hash without a NUL, and the body, whose format is that of a
      download. */
  lemma UploadFormat(h: Hash, name: Bytes, content: Bytes)
    requires Sendable(name, content)
    ensures var w := PutsStream(h, name, content);
            && FrameAt(w, 0, name + [0])
            && SizeAt(w, 5 + |name|, |content|)
            && FrameAt(w, 17 + |name|, Hex(h(content)))
            && |w| >= 85 + |name| && w[85 + |name|..] == Payload(content)
  {
    hide Train, OffT, Payload;
    var a, b, c, tail := Train(name + [0]), Train(OffT(|content|)), Train(Hex(h(content))), Payload(content);
    var w := PutsStream(h, name, content);
    OffTBytes(|content|);
    assert w == [] + (a + (b + (c + tail))) == a + (b + (c + tail)) == (a + b) + (c + tail);
    TrainAt([], name + [0], b + (c + tail));
    SizeTrainAt(a, |content|, c + tail);
    TrainAt(a + b, Hex(h(content)), tail);
  }

  /** What a cut body leaves at the server: up to 104857600 bytes a prefix of the content, beyond a blob
      of full length with what has arrived; and the blob is complete with the whole body, if that has
      less than 2^31 bytes. */
  lemma CutUploadLeaves(content: Bytes, w: Bytes)
    requires w <= Payload(content)
    ensures var blob := RecvBlob(|content|, w);
            && (if |content| <= 104857600 then blob.content <= content
                else |blob.content| == |content|
                     && (|w| < |content| ==> blob.content == w + seq(|content| - |w|, _ => 0)))
            && (blob.complete <==> w == Payload(content) && |content| < 2147483648)
  {
    hide EncodeChunks, RecvFrames, RecvRaw, Resized;
    assert Payload(content) + [] == Payload(content);
    BlobOfPrefix(content, [], w);
    if |content| > 104857600 {
      assert content + [] == content;
      RawOfPrefix(true, content, [], w);
    } else {
      Assoc(EncodeChunks(content), END_MARK, []);
      assert content[0..] == content && content[..0] == [];
      FramesOfPrefix(content, 0, [], w);
    }
  }
}
