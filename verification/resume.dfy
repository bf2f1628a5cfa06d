/** Whole sequences of interrupted downloads of one stored file `s` into one local file. */
module Resume {
  import opened Wire
  import opened Digest
  import opened GetsServer
  import opened FileReceiving
  import opened GetsClient
  import opened GetsExchange

  /** Where an attempt is cut: bytes of the request that reach the server, bytes of the answer that
      reach the client, and whether the client dies right after truncating the file. */
  datatype Cut = Cut(request: nat, reply: nat, diesTruncated: bool)

  function Prefix(w: Bytes, n: nat): (p: Bytes)
    ensures p <= w
  {
    w[..Min(n, |w|)]
  }

  function Delivered(h: Hash, name: Bytes, s: Bytes, file: Option<Bytes>, cut: Cut): Bytes {
    Prefix(ServerOutput(h, name, s, Prefix(GetsRequest(h, Content(file)), cut.request)), cut.reply)
  }

  function Attempt(h: Hash, name: Bytes, s: Bytes, file: Option<Bytes>, cut: Cut): GetsResult {
    MortalOutcome(h, name, file, Delivered(h, name, s, file, cut), cut.diesTruncated)
  }

  /** The local file after a sequence of attempts, each starting from what the last one left. */
  function AfterAttempts(h: Hash, name: Bytes, s: Bytes, file: Option<Bytes>, cuts: seq<Cut>): Option<Bytes>
    decreases |cuts|
  {
    if cuts == [] then file
    else AfterAttempts(h, name, s, Attempt(h, name, s, file, cuts[0]).file, cuts[1..])
  }

  /** What interrupted downloads of `s` leave behind: a prefix of a small file; for a large file
      nothing at all or a file of full length, whatever its bytes. */
  predicate Resumable(s: Bytes, file: Option<Bytes>) {
    if |s| <= LARGE_FILE_THRESHOLD then Content(file) <= s
    else |Content(file)| == 0 || |Content(file)| == |s|
  }

  // ----- one attempt, seen through the announcement -----

  /** What the client starts to write to. */
  function Base(file: Option<Bytes>, a: nat): Bytes {
    if a == 0 then [] else Content(file)
  }

  predicate PrologueArrived(name: Bytes, w: Bytes) {
    |w| >= PrologueLength(name)
  }

  /** The client's call on a cut answer, with the announcement resolved. */
  lemma OutcomeOfPrefix(h: Hash, name: Bytes, s: Bytes, file: Option<Bytes>, w: Bytes)
    requires Sendable(name, s) && |Content(file)| <= |s|
    requires w <= Answered(h, name, s, Agreed(h, s, Content(file)))
    ensures var a := Agreed(h, s, Content(file));
            && (!PrologueArrived(name, w) ==>
                  !Truncates(name, w) && GetsOutcome(h, name, file, w) == GetsResult(Failure, file, []))
            && (PrologueArrived(name, w) ==>
                  var rest := w[PrologueLength(name)..];
                  && rest <= Tail(h, s, a)
                  && (Truncates(name, w) <==> a == 0 < |s|)
                  && GetsOutcome(h, name, file, w)
                     == if a == |s| then GetsResult(Success, file, rest)
                        else RecvFile(h, Base(file, a), a, |s| - a, rest))
  {
    hide Prologue, Tail, RecvFile, RecvAnnouncement;
    var a := Agreed(h, s, Content(file));
    AnnouncementOfPrefix(name, |s| - a, |s|, Tail(h, s, a), w);
  }

  lemma AgreedIsAll(h: Hash, s: Bytes, local: Bytes)
    requires |local| <= |s| && Agreed(h, s, local) == |s|
    ensures local == s || Collision(h, local, s)
  {
    if |local| == |s| {
      assert s[..|s|] == s;
      if s != [] {
        SameShaMeansSameContentOrCollision(h, local, s);
      }
    }
  }

  /** The delivered bytes are a prefix of the answer from the agreed offset. */
  lemma DeliveredIsPrefix(h: Hash, name: Bytes, s: Bytes, file: Option<Bytes>, cut: Cut)
    requires Sendable(name, s) && |Content(file)| <= |s|
    ensures Delivered(h, name, s, file, cut) <= Answered(h, name, s, Agreed(h, s, Content(file)))
    ensures cut.request >= |GetsRequest(h, Content(file))| ==>
              Delivered(h, name, s, file, cut)
              == Prefix(Answered(h, name, s, Agreed(h, s, Content(file))), cut.reply)
  {
    hide GetsReply, Answered, Agreed, GetsRequest;
    var request := GetsRequest(h, Content(file));
    if cut.request >= |request| {
      assert Prefix(request, cut.request) == request;
      RequestAnswered(h, name, s, Content(file));
    } else {
      CutRequestUnanswered(h, name, s, Content(file), Prefix(request, cut.request));
    }
  }

  // ----- small files -----

  lemma SmallFileReceived(h: Hash, s: Bytes, a: nat, w: Bytes)
    requires a < |s| <= LARGE_FILE_THRESHOLD
    requires w <= Tail(h, s, a)
    ensures var r := RecvFile(h, s[..a], a, |s| - a, w);
            && r.status != Hang && r.file.Some? && r.file.value <= s
            && |r.file.value| == a + PayloadIn(w)
            && (r.status == Success ==> r.file == Some(s))
            && (w == Tail(h, s, a) ==> r == GetsResult(Success, Some(s), []))
  {
    hide EncodeChunks, RecvFrames, Verified, FullHashTrain, PayloadIn;
    Assoc(EncodeChunks(s[a..]), END_MARK, FullHashTrain(h, s));
    FramesOfPrefix(s, a, FullHashTrain(h, s), w);
    var r := RecvFrames(s[..a], a, w);
    if r.complete {
      VerifiedOfPrefix(h, s, r.rest);
    }
  }

  lemma SmallAgreed(h: Hash, s: Bytes, local: Bytes)
    requires local <= s
    ensures Agreed(h, s, local) == |local|
  {
    assert s[..|local|] == local;
  }

  // ----- large files -----

  lemma LargeFileReceived(h: Hash, s: Bytes, w: Bytes)
    requires |s| > LARGE_FILE_THRESHOLD
    requires w <= Tail(h, s, 0)
    ensures var r := RecvFile(h, [], 0, |s|, w);
            && r.status != Hang && r.file.Some? && |r.file.value| == |s|
            && (r.status == Success ==> r.file == Some(s) && FitsInt(|s|))
            && (|w| < |s| ==> r.file == Some(w + seq(|s| - |w|, _ => 0)))
            && (w == Tail(h, s, 0) && FitsInt(|s|) ==> r == GetsResult(Success, Some(s), []))
  {
    hide Verified, FullHashTrain, RecvRaw, Resized;
    assert s[0..] == s;
    RawOfPrefix(false, s, FullHashTrain(h, s), w);
    var r := RecvRaw(false, Resized([], |s|), 0, w);
    if r.complete {
      VerifiedOfPrefix(h, s, r.rest);
    }
  }

  // ----- one attempt -----

  /** The call reports success only over the stored content, or - large files only - over a SHA-256
      collision with it. */
  predicate Sound(h: Hash, s: Bytes, r: GetsResult) {
    && r.status != Hang
    && (r.status == Success ==>
          Content(r.file) == s || (|s| > LARGE_FILE_THRESHOLD && Collision(h, Content(r.file), s)))
  }

  lemma SmallOutcome(h: Hash, name: Bytes, s: Bytes, file: Option<Bytes>, w: Bytes)
    requires Sendable(name, s) && |s| <= LARGE_FILE_THRESHOLD && Content(file) <= s
    requires w <= Answered(h, name, s, |Content(file)|)
    ensures var r := GetsOutcome(h, name, file, w);
            && Sound(h, s, r)
            && Content(r.file) <= s
            && |Content(r.file)|
               == |Content(file)|
                  + if PrologueArrived(name, w) then PayloadIn(w[PrologueLength(name)..]) else 0
    ensures Truncates(name, w) ==> Content(file) == []
    ensures w == Answered(h, name, s, |Content(file)|) ==>
              GetsOutcome(h, name, file, w).status == Success && GetsOutcome(h, name, file, w).rest == []
  {
    hide RecvFile, Answered, PayloadIn, Tail, GetsOutcome, Agreed, Truncates;
    var a := |Content(file)|;
    SmallAgreed(h, s, Content(file));
    OutcomeOfPrefix(h, name, s, file, w);
    WholeAnswer(h, name, s, a);
    if PrologueArrived(name, w) {
      var rest := w[PrologueLength(name)..];
      if a == |s| {
        TailOfAll(h, s);
        assert rest == [];
        NothingInNothing();
      } else {
        assert Base(file, a) == s[..a];
        SmallFileReceived(h, s, a, rest);
      }
    }
  }

  lemma LargeOutcome(h: Hash, name: Bytes, s: Bytes, file: Option<Bytes>, w: Bytes)
    requires Sendable(name, s) && |s| > LARGE_FILE_THRESHOLD
    requires |Content(file)| == 0 || |Content(file)| == |s|
    requires w <= Answered(h, name, s, Agreed(h, s, Content(file)))
    ensures var r := GetsOutcome(h, name, file, w);
            Sound(h, s, r) && (|Content(r.file)| == 0 || |Content(r.file)| == |s|)
    ensures w == Answered(h, name, s, Agreed(h, s, Content(file))) ==>
              var r := GetsOutcome(h, name, file, w);
              && (r.status == Success <==> FitsInt(|s| - Agreed(h, s, Content(file))))
              && (r.status == Success ==> r.rest == [])
  {
    hide RecvFile, Answered, Tail, GetsOutcome, Agreed, Truncates;
    var a := Agreed(h, s, Content(file));
    LargeAgreed(h, s, file);
    OutcomeOfPrefix(h, name, s, file, w);
    WholeAnswer(h, name, s, a);
    if PrologueArrived(name, w) {
      if a == |s| {
        AgreedIsAll(h, s, Content(file));
        TailOfAll(h, s);
      } else {
        LargeFileReceived(h, s, w[PrologueLength(name)..]);
      }
    }
  }

  /** Every way of cutting an attempt keeps the invariant, makes neither side spin, and lets the
      attempt report success only over `s`. */
  lemma AttemptKeepsResumable(h: Hash, name: Bytes, s: Bytes, file: Option<Bytes>, cut: Cut)
    requires Sendable(name, s) && Resumable(s, file)
    ensures Resumable(s, Attempt(h, name, s, file, cut).file)
    ensures Sound(h, s, Attempt(h, name, s, file, cut))
  {
    hide GetsOutcome, Answered, Delivered, Agreed, Truncates;
    var w := Delivered(h, name, s, file, cut);
    DeliveredIsPrefix(h, name, s, file, cut);
    if |s| <= LARGE_FILE_THRESHOLD {
      SmallAgreed(h, s, Content(file));
      SmallOutcome(h, name, s, file, w);
    } else {
      LargeOutcome(h, name, s, file, w);
    }
  }

  /** The server never meets an offset beyond the file, and what it answers starts at 0, at the end,
      or - small files only - where the client's bytes end. */
  lemma ServerNeverSpins(h: Hash, name: Bytes, s: Bytes, file: Option<Bytes>, n: nat)
    requires Sendable(name, s) && Resumable(s, file)
    ensures GetsReply(h, name, s, Prefix(GetsRequest(h, Content(file)), n)) != GetsServer.NeverEnds
  {
    hide GetsReply, Answered, GetsRequest;
    var request := GetsRequest(h, Content(file));
    if n >= |request| {
      assert Prefix(request, n) == request;
      RequestAnswered(h, name, s, Content(file));
    } else {
      CutRequestUnanswered(h, name, s, Content(file), Prefix(request, n));
    }
  }

  /** Server and client make the same choice of mode, although one tests what remains and the other
      the size of the whole file. */
  lemma ModesAgree(h: Hash, s: Bytes, file: Option<Bytes>)
    requires Resumable(s, file)
    ensures var a := Agreed(h, s, Content(file));
            a < |s| ==> (SendsRaw(|s| - a) <==> ReceivesRaw(|s| - a + |Base(file, a)|))
  {
    if |s| <= LARGE_FILE_THRESHOLD {
      SmallAgreed(h, s, Content(file));
    }
  }

  lemma LargeAgreed(h: Hash, s: Bytes, file: Option<Bytes>)
    requires |s| > LARGE_FILE_THRESHOLD && Resumable(s, file)
    ensures Agreed(h, s, Content(file)) == 0 || Agreed(h, s, Content(file)) == |s|
  {
  }

  // ----- what an interrupted large download is worth -----

  /** The first `k` bytes of `s` in a file of its length. */
  function Preallocated(s: Bytes, k: nat): (r: Bytes)
    requires k <= |s|
    ensures |r| == |s|
  {
    s[..k] + seq(|s| - k, _ => 0)
  }

  lemma PreallocatedIsWholeIff(s: Bytes, k: nat)
    requires k <= |s|
    ensures Preallocated(s, k) == s <==> forall i | k <= i < |s| :: s[i] == 0
  {
    var p := Preallocated(s, k);
    assert forall i | 0 <= i < |s| :: p[i] == if i < k then s[i] else 0;
    if p == s {
      assert forall i | k <= i < |s| :: s[i] == p[i];
    }
  }

  lemma AgreedOfFullLength(h: Hash, s: Bytes, local: Bytes)
    requires |local| == |s| > 0
    ensures Agreed(h, s, local) == if local == s || Collision(h, local, s) then |s| else 0
  {
    assert s[..|s|] == s;
    SameShaMeansSameContentOrCollision(h, local, s);
  }

  /** A large file of which `k` bytes had arrived when the connection broke. The copy has the full
      length and those bytes, and the next attempt keeps them exactly when all that was missing is
      zero (or on a collision); otherwise the transfer starts over at the first byte. */
  lemma LargeFilesStartOver(h: Hash, name: Bytes, s: Bytes, file: Option<Bytes>, cut: Cut, k: nat)
    requires Sendable(name, s) && |s| > LARGE_FILE_THRESHOLD && k < |s|
    requires Resumable(s, file) && Agreed(h, s, Content(file)) == 0
    requires cut.request >= |GetsRequest(h, Content(file))| && cut.reply == PrologueLength(name) + k
    requires !cut.diesTruncated
    ensures Attempt(h, name, s, file, cut).file == Some(Preallocated(s, k))
    ensures Agreed(h, s, Preallocated(s, k))
         == if (forall i | k <= i < |s| :: s[i] == 0) || Collision(h, Preallocated(s, k), s) then |s| else 0
  {
    hide RecvFile, Answered, Tail, GetsOutcome, Agreed, Truncates, GetsRequest, Preallocated, Delivered;
    var w := Delivered(h, name, s, file, cut);
    DeliveredIsPrefix(h, name, s, file, cut);
    CutInBody(h, name, s, k);
    OutcomeOfPrefix(h, name, s, file, w);
    LargeFileReceived(h, s, w[PrologueLength(name)..]);
    IsPreallocated(s, k, w[PrologueLength(name)..]);
    PreallocatedIsWholeIff(s, k);
    AgreedOfFullLength(h, s, Preallocated(s, k));
  }

  lemma IsPreallocated(s: Bytes, k: nat, w: Bytes)
    requires k <= |s| && w == s[..k]
    ensures w + seq(|s| - |w|, _ => 0) == Preallocated(s, k)
  {
  }

  lemma CutInBody(h: Hash, name: Bytes, s: Bytes, k: nat)
    requires |s| > LARGE_FILE_THRESHOLD && k < |s|
    ensures var w := Prefix(Answered(h, name, s, 0), PrologueLength(name) + k);
            |w| == PrologueLength(name) + k && w[PrologueLength(name)..] == s[..k]
  {
    hide FullHashTrain, Answered;
    WholeAnswer(h, name, s, 0);
    assert s[0..] == s;
    var w := Answered(h, name, s, 0);
    assert Tail(h, s, 0)[..k] == s[..k];
    assert w[..PrologueLength(name) + k][PrologueLength(name)..] == w[PrologueLength(name)..][..k];
  }

  // ----- sequences of attempts -----

  lemma {:induction false} AttemptsKeepResumable(h: Hash, name: Bytes, s: Bytes, file: Option<Bytes>, cuts: seq<Cut>)
    requires Sendable(name, s) && Resumable(s, file)
    ensures Resumable(s, AfterAttempts(h, name, s, file, cuts))
    decreases |cuts|
  {
    hide Attempt, Resumable;
    if cuts != [] {
      AttemptKeepsResumable(h, name, s, file, cuts[0]);
      AttemptsKeepResumable(h, name, s, Attempt(h, name, s, file, cuts[0]).file, cuts[1..]);
    }
  }

  /** What holds when a download of `s` is attempted over `file`: the announced offset lies within
      the stored file, both sides choose the same mode, neither spins, and success is sound. */
  ghost predicate SafeAttempt(h: Hash, name: Bytes, s: Bytes, file: Option<Bytes>, cut: Cut) {
    && |Content(file)| <= |s|
    && GetsReply(h, name, s, Prefix(GetsRequest(h, Content(file)), cut.request)) != GetsServer.NeverEnds
    && (var a := Agreed(h, s, Content(file));
        a < |s| ==> (SendsRaw(|s| - a) <==> ReceivesRaw(|s| - a + |Base(file, a)|)))
    && Sound(h, s, Attempt(h, name, s, file, cut))
  }

  /** Starting with no local file, after any number of attempts cut anywhere, the next one is safe:
      in particular the region where the two mode tests differ is never reached. */
  lemma InterruptedDownloadsAreSafe(h: Hash, name: Bytes, s: Bytes, cuts: seq<Cut>, last: Cut)
    requires Sendable(name, s)
    ensures SafeAttempt(h, name, s, AfterAttempts(h, name, s, None, cuts), last)
  {
    hide Attempt, Agreed, GetsReply, GetsRequest, Sound;
    assert Resumable(s, None);
    AttemptsKeepResumable(h, name, s, None, cuts);
    var file := AfterAttempts(h, name, s, None, cuts);
    AttemptKeepsResumable(h, name, s, file, last);
    ServerNeverSpins(h, name, s, file, last.request);
    ModesAgree(h, s, file);
  }

  /** An attempt that is not cut. */
  predicate Whole(h: Hash, name: Bytes, s: Bytes, file: Option<Bytes>, cut: Cut) {
    && cut.request >= |GetsRequest(h, Content(file))|
    && cut.reply >= |ServerOutput(h, name, s, GetsRequest(h, Content(file)))|
    && !cut.diesTruncated
  }

  lemma WholeAnswer(h: Hash, name: Bytes, s: Bytes, a: nat)
    requires a <= |s|
    ensures |Answered(h, name, s, a)| >= PrologueLength(name)
    ensures Answered(h, name, s, a)[PrologueLength(name)..] == Tail(h, s, a)
  {
    hide Tail;
    assert |Prologue(name, |s| - a, |s|)| == PrologueLength(name);
  }

  lemma TailOfAll(h: Hash, s: Bytes)
    ensures Tail(h, s, |s|) == []
  {
  }

  /** How many bytes the server is going to send. */
  function ToTransfer(h: Hash, s: Bytes, file: Option<Bytes>): nat {
    if |Content(file)| <= |s| then |s| - Agreed(h, s, Content(file)) else 0
  }

  /** However interruptions left the file behind, one attempt that is not cut succeeds, and consumes
      exactly what the server wrote, if and only if less than 2^31 bytes are to be transferred. */
  lemma WholeAttemptSucceedsIff(h: Hash, name: Bytes, s: Bytes, file: Option<Bytes>, cut: Cut)
    requires Sendable(name, s) && Resumable(s, file)
    ensures var r := Attempt(h, name, s, file, cut);
            Whole(h, name, s, file, cut) ==>
              && (r.status == Success <==> FitsInt(ToTransfer(h, s, file)))
              && (r.status == Success ==> r.rest == [])
  {
    hide Answered, GetsOutcome, Truncates, Agreed, GetsRequest, GetsReply;
    if Whole(h, name, s, file, cut) {
      var w := Answered(h, name, s, Agreed(h, s, Content(file)));
      DeliveredIsPrefix(h, name, s, file, cut);
      RequestAnswered(h, name, s, Content(file));
      assert Prefix(w, cut.reply) == w;
      if |s| <= LARGE_FILE_THRESHOLD {
        SmallAgreed(h, s, Content(file));
        SmallOutcome(h, name, s, file, w);
      } else {
        LargeOutcome(h, name, s, file, w);
      }
    }
  }

  /** After any number of interrupted attempts, starting with no local file, one that is not cut
      completes the file, if and only if less than 2^31 bytes are to be transferred. */
  lemma DownloadRecoversIff(h: Hash, name: Bytes, s: Bytes, cuts: seq<Cut>, last: Cut)
    requires Sendable(name, s)
    ensures var file := AfterAttempts(h, name, s, None, cuts);
            var r := Attempt(h, name, s, file, last);
            Whole(h, name, s, file, last) ==>
              && (r.status == Success <==> FitsInt(ToTransfer(h, s, file)))
              && (r.status == Success ==> r.rest == [] && Sound(h, s, r))
  {
    hide Attempt, Whole;
    assert Resumable(s, None);
    AttemptsKeepResumable(h, name, s, None, cuts);
    var file := AfterAttempts(h, name, s, None, cuts);
    WholeAttemptSucceedsIff(h, name, s, file, last);
    AttemptKeepsResumable(h, name, s, file, last);
  }

  /** With 2^31 bytes to go, not even an attempt that is not cut reports success. */
  lemma HugeAttemptFails(h: Hash, name: Bytes, s: Bytes, cut: Cut)
    requires Sendable(name, s) && !FitsInt(|s|)
    ensures Whole(h, name, s, None, cut) ==> Attempt(h, name, s, None, cut).status != Success
  {
    hide Attempt, Whole;
    assert s[..0] == [];
    WholeAttemptSucceedsIff(h, name, s, None, cut);
    LargeAgreed(h, s, None);
    assert Agreed(h, s, Content(None)) == 0;
  }

  // ----- no verified work is repeated -----

  /** Payload bytes an attempt writes to the local file. */
  function PayloadWritten(h: Hash, name: Bytes, s: Bytes, file: Option<Bytes>, cut: Cut): nat {
    var w := Delivered(h, name, s, file, cut);
    if |w| < PrologueLength(name) || (cut.diesTruncated && Truncates(name, w)) then 0
    else PayloadIn(w[PrologueLength(name)..])
  }

  function TotalPayload(h: Hash, name: Bytes, s: Bytes, file: Option<Bytes>, cuts: seq<Cut>): nat
    decreases |cuts|
  {
    if cuts == [] then 0
    else
      PayloadWritten(h, name, s, file, cuts[0])
      + TotalPayload(h, name, s, Attempt(h, name, s, file, cuts[0]).file, cuts[1..])
  }

  /** Small files: an attempt grows the local file by exactly the payload of the whole trains it
      received, so the part still missing shrinks with every such train and never grows. */
  lemma SmallAttemptGrowsByPayload(h: Hash, name: Bytes, s: Bytes, file: Option<Bytes>, cut: Cut)
    requires Sendable(name, s) && |s| <= LARGE_FILE_THRESHOLD && Resumable(s, file)
    ensures |Content(Attempt(h, name, s, file, cut).file)|
         == |Content(file)| + PayloadWritten(h, name, s, file, cut)
  {
    hide Answered, Delivered, PayloadIn, GetsOutcome, Agreed, Truncates;
    DeliveredIsPrefix(h, name, s, file, cut);
    SmallAgreed(h, s, Content(file));
    SmallOutcome(h, name, s, file, Delivered(h, name, s, file, cut));
  }

  lemma NothingInNothing()
    ensures PayloadIn([]) == 0
  {
  }

  lemma {:induction false} SmallAttemptsAddUp(h: Hash, name: Bytes, s: Bytes, file: Option<Bytes>, cuts: seq<Cut>)
    requires Sendable(name, s) && |s| <= LARGE_FILE_THRESHOLD && Resumable(s, file)
    ensures |Content(AfterAttempts(h, name, s, file, cuts))|
         == |Content(file)| + TotalPayload(h, name, s, file, cuts)
    decreases |cuts|
  {
    hide Attempt, PayloadWritten, Resumable;
    if cuts != [] {
      var next := Attempt(h, name, s, file, cuts[0]).file;
      SmallAttemptGrowsByPayload(h, name, s, file, cuts[0]);
      AttemptKeepsResumable(h, name, s, file, cuts[0]);
      SmallAttemptsAddUp(h, name, s, next, cuts[1..]);
    }
  }

  /** When a small file is complete, the payload written over all the attempts together is the
      length of the file: not one verified byte has been transferred twice. */
  lemma NoByteIsWrittenTwice(h: Hash, name: Bytes, s: Bytes, cuts: seq<Cut>)
    requires Sendable(name, s) && |s| <= LARGE_FILE_THRESHOLD
    ensures Content(AfterAttempts(h, name, s, None, cuts)) == s ==>
              TotalPayload(h, name, s, None, cuts) == |s|
  {
    assert Resumable(s, None);
    SmallAttemptsAddUp(h, name, s, None, cuts);
  }
}
