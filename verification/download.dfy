/** One uninterrupted download over an arbitrary local file no longer than the stored one. */
module Download {
  import opened Wire
  import opened Digest
  import opened GetsServer
  import opened FileReceiving
  import opened GetsClient
  import opened GetsExchange
  import opened Resume

  /** The server tests what remains, the client what remains plus the offset. */
  predicate ModesDiffer(s: Bytes, local: Bytes) {
    |s| > LARGE_FILE_THRESHOLD && local <= s && 0 < |local| < |s| && |s| - |local| <= LARGE_FILE_THRESHOLD
  }

  // ----- where a byte of the framed stream comes from -----

  /** Byte `p` of the framed stream of `x` belongs to a header, or is the byte of `x` four positions
      per train earlier. */
  lemma {:induction false} ChunkIndex(x: Bytes, p: nat)
    requires p < |EncodeChunks(x)|
    ensures var i, q := p / 4100, p % 4100;
            && 4096 * i < |x|
            && (q < 4 ==> EncodeChunks(x)[p] == IntHeader(Min(DATA_SIZE, |x| - 4096 * i))[q])
            && (q >= 4 ==> 4096 * i + q - 4 < |x| && EncodeChunks(x)[p] == x[4096 * i + q - 4])
    decreases |x|
  {
    hide LittleEndian, IntHeader, EncodeChunks;
    if x == [] {
      NoChunks();
    } else {
      var n := Min(DATA_SIZE, |x|);
      var rest := EncodeChunks(x[n..]);
      EncodeChunksStep(x, n);
      assert EncodeChunks(x) == IntHeader(n) + x[..n] + rest;
      if p >= 4 + n {
        if n < DATA_SIZE {
          assert x[n..] == [];
          NoChunks();
        }
        ChunkIndex(x[n..], p - 4100);
        assert EncodeChunks(x)[p] == rest[p - 4100];
      }
    }
  }

  lemma HeaderEndsInZero(n: nat)
    requires n <= DATA_SIZE
    ensures IntHeader(n)[3] == 0
  {
    assert LittleEndian(n, 4)[3] == LittleEndian(n / 256, 3)[2];
    assert LittleEndian(n / 256, 3)[2] == LittleEndian(n / 256 / 256, 2)[1];
    assert n / 256 / 256 == 0;
  }

  lemma LastOfFour(x: int, k: int)
    requires x == 4 * k + 3
    ensures x % 4 == 3
    ensures 0 <= x < 4 ==> x == 3
  {
    if 0 <= x < 4 {
      assert -1 < k < 1;
    }
  }

  /** Within train `i`, a position that is 3 modulo 4 keeps that remainder. */
  lemma InTrain(p: nat, i: nat, q: nat) returns (k: int)
    requires p % 4 == 3 && p == 4100 * i + q
    ensures q == 4 * k + 3
  {
    k := p / 4 - 1025 * i;
    assert p == 4 * (p / 4) + 3;
  }

  /** If the raw bytes are taken for the framed ones without a difference, every fourth byte is 0:
      it is the top byte of a header, or a copy of an earlier fourth byte. */
  lemma {:induction false} EveryFourthByteIsZero(x: Bytes, p: nat)
    requires x <= EncodeChunks(x)
    requires p < |EncodeChunks(x)| && p % 4 == 3
    ensures EncodeChunks(x)[p] == 0
    decreases p
  {
    hide EncodeChunks, IntHeader;
    ChunkIndex(x, p);
    var i, q := p / 4100, p % 4100;
    var k := InTrain(p, i, q);
    LastOfFour(q, k);
    if q < 4 {
      HeaderEndsInZero(Min(DATA_SIZE, |x| - 4096 * i));
    } else {
      var earlier := 4096 * i + q - 4;
      LastOfFour(earlier, 1024 * i + k - 1);
      assert x[earlier] == EncodeChunks(x)[earlier];
      EveryFourthByteIsZero(x, earlier);
    }
  }

  lemma {:induction false} FramesAreLonger(x: Bytes)
    ensures |EncodeChunks(x)| >= |x|
    ensures x != [] ==> |EncodeChunks(x)| >= |x| + 4
    decreases |x|
  {
    if x != [] {
      var n := Min(DATA_SIZE, |x|);
      EncodeChunksStep(x, n);
      FramesAreLonger(x[n..]);
    }
  }

  /** The next position that is 3 modulo 4. */
  lemma NextLastOfFour(n: nat) returns (j: nat)
    ensures j < 4 && (n + 4 + j) % 4 == 3
  {
    var q, r := n / 4, n % 4;
    assert n == 4 * q + r;
    j := 3 - r;
    LastOfFour(n + 4 + j, q + 1);
  }

  /** A zero byte within the first 64 bytes of the supposed hash string. */
  lemma NoHashInFrames(x: Bytes, tail: Bytes) returns (j: nat)
    requires x != [] && x <= EncodeChunks(x)
    ensures j < 4 && |x| + 4 + j < |EncodeChunks(x)| + 4
    ensures (EncodeChunks(x) + (END_MARK + tail))[|x| + 4 + j] == 0
  {
    hide EncodeChunks;
    FramesAreLonger(x);
    j := NextLastOfFour(|x|);
    ZeroInFrames(x, tail, |x| + 4 + j);
  }

  lemma ZeroInFrames(x: Bytes, tail: Bytes, p: nat)
    requires x <= EncodeChunks(x) && p % 4 == 3 && p < |EncodeChunks(x)| + 4
    ensures (EncodeChunks(x) + (END_MARK + tail))[p] == 0
  {
    hide EncodeChunks;
    if p < |EncodeChunks(x)| {
      EveryFourthByteIsZero(x, p);
    } else {
      assert END_MARK == [0, 0, 0, 0];
      assert (EncodeChunks(x) + (END_MARK + tail))[p] == END_MARK[p - |EncodeChunks(x)|];
    }
  }

  /** A claim with a zero byte among its first 64 bytes is no SHA-256 string. */
  lemma ShortClaimRejected(h: Hash, content: Bytes, size: int, w: Bytes, j: nat)
    requires j < 4 && |w| > 4 + j && w[4 + j] == 0
    ensures Verified(h, content, size, w).status != Success
  {
    hide Sha, CStr;
    var r := RecvTrain(w);
    if size <= |content| && r.Some? {
      var claim := r.value.0;
      if j < |claim| {
        assert claim[j] == w[4 + j];
      }
      var c := CStr(claim);
      assert forall i | 0 <= i < |c| :: claim[i] == c[i] != 0;
      assert |c| <= 4;
    }
  }

  lemma RawTakesFrames(s: Bytes, a: nat, framed: Bytes)
    requires a <= |s| && |framed| >= |s| - a && FitsInt(|s| - a)
    ensures var r := RecvRaw(false, Resized(s[..a], |s|), a, framed);
            && r.complete && r.rest == framed[|s| - a..]
            && (r.content == s ==> s[a..] <= framed)
  {
    hide RecvRaw, Filled, Resized;
    RecvRawOfInt(false, Resized(s[..a], |s|), a, framed);
    FilledTail(Resized(s[..a], |s|), a, framed);
  }

  lemma FramedTail(h: Hash, s: Bytes, a: nat)
    requires a < |s| && |s| - a <= LARGE_FILE_THRESHOLD
    ensures Tail(h, s, a) == EncodeChunks(s[a..]) + (END_MARK + FullHashTrain(h, s))
  {
    hide EncodeChunks, FullHashTrain;
    Assoc(EncodeChunks(s[a..]), END_MARK, FullHashTrain(h, s));
  }

  lemma DifferentModesFail(h: Hash, s: Bytes, a: nat)
    requires 0 < a < |s| && |s| > LARGE_FILE_THRESHOLD && |s| - a <= LARGE_FILE_THRESHOLD
    ensures var r := RecvFile(h, s[..a], a, |s| - a, Tail(h, s, a));
            !(r.status == Success && r.file == Some(s))
  {
    hide EncodeChunks, FullHashTrain, Verified, Resized, RecvRaw, Tail;
    var x, tail := s[a..], FullHashTrain(h, s);
    FramedTail(h, s, a);
    var framed := EncodeChunks(x) + (END_MARK + tail);
    FramesAreLonger(x);
    RawTakesFrames(s, a, framed);
    var received := RecvRaw(false, Resized(s[..a], |s|), a, framed);
    VerifiedKeepsContent(h, received.content, |s|, received.rest);
    if received.content == s {
      PrefixOfFirst(x, EncodeChunks(x), END_MARK + tail);
      var j := NoHashInFrames(x, tail);
      assert received.rest[4 + j] == framed[|x| + 4 + j];
      ShortClaimRejected(h, s, |s|, received.rest, j);
    }
  }

  lemma PrefixOfFirst(x: Bytes, y: Bytes, z: Bytes)
    requires x <= y + z && |x| <= |y|
    ensures x <= y
  {
    assert x == (y + z)[..|x|] == y[..|x|];
  }

  lemma VerifiedKeepsContent(h: Hash, content: Bytes, size: int, w: Bytes)
    ensures Verified(h, content, size, w).file == Some(content)
  {
  }

  // ----- equal modes -----

  lemma RawResumed(s: Bytes, a: nat, tail: Bytes)
    requires a <= |s| && FitsInt(|s| - a)
    ensures RecvRaw(false, Resized(s[..a], |s|), a, s[a..] + tail) == Received(true, s, tail)
  {
    hide RecvRaw;
    RecvRawOfInt(false, Resized(s[..a], |s|), a, s[a..] + tail);
    var r := RecvRaw(false, Resized(s[..a], |s|), a, s[a..] + tail);
    assert r.content == s[..a] + s[a..];
  }

  lemma EqualModesSucceed(h: Hash, s: Bytes, a: nat)
    requires a < |s| && FitsInt(|s| - a)
    requires SendsRaw(|s| - a) <==> ReceivesRaw(|s|)
    ensures RecvFile(h, s[..a], a, |s| - a, Tail(h, s, a)) == GetsResult(Success, Some(s), [])
  {
    hide EncodeChunks, FullHashTrain, Verified, Resized, RecvRaw, RecvFrames, PayloadIn;
    var tail := FullHashTrain(h, s);
    if SendsRaw(|s| - a) {
      RawResumed(s, a, tail);
    } else {
      Assoc(EncodeChunks(s[a..]), END_MARK, tail);
      FramesOfPrefix(s, a, tail, EncodeChunks(s[a..]) + (END_MARK + tail));
    }
    VerifiedOfPrefix(h, s, tail);
    VerifiedKeepsContent(h, s, |s|, tail);
    assert s == Some(s).value;
  }

  // ----- raw mode -----

  /** Raw mode leaves a file of the announced size, and never succeeds with 2^31 bytes or more. */
  lemma RawModeOutcome(h: Hash, content: Bytes, base: nat, remaining: nat, w: Bytes)
    requires base <= |content| && ReceivesRaw(remaining + base) && remaining > 0
    ensures var r := RecvFile(h, content, base, remaining, w);
            |Content(r.file)| == remaining + base && (!FitsInt(remaining) ==> r.status != Success)
  {
    hide RecvRaw, Resized, Verified;
    var mapped := Resized(content, remaining + base);
    RecvRawCompletesIff(false, mapped, base, w);
    var r := RecvRaw(false, mapped, base, w);
    VerifiedKeepsContent(h, r.content, remaining + base, r.rest);
  }

  /** The offset agreed on, without a collision on the announced part. */
  lemma AgreedIsPrefixTest(h: Hash, s: Bytes, local: Bytes)
    requires |local| <= |s| && !Collision(h, local, s[..|local|])
    ensures Agreed(h, s, local) == if local <= s then |local| else 0
  {
    SameShaMeansSameContentOrCollision(h, local, s[..|local|]);
  }

  /** The bytes of `s` that a client with `local` still needs. */
  function Missing(s: Bytes, local: Bytes): nat {
    if local <= s then |s| - |local| else |s|
  }

  /** An uninterrupted download over any local file no longer than the stored one returns success
      with the stored content, everything consumed, exactly when the two mode tests agree and less
      than 2^31 bytes are missing. */
  lemma UninterruptedDownloadSucceedsIff(h: Hash, name: Bytes, s: Bytes, file: Option<Bytes>, cut: Cut)
    requires Sendable(name, s) && |Content(file)| <= |s|
    requires !Collision(h, Content(file), s[..|Content(file)|])
    ensures var r := Attempt(h, name, s, file, cut);
            Whole(h, name, s, file, cut) ==>
              (r.status == Success && Content(r.file) == s && r.rest == []
               <==> !ModesDiffer(s, Content(file)) && FitsInt(Missing(s, Content(file))))
  {
    hide Answered, GetsOutcome, Agreed, ModesDiffer, Missing;
    WholeIsAnswered(h, name, s, file, cut);
    WholeOutcome(h, name, s, file);
  }

  lemma WholeIsAnswered(h: Hash, name: Bytes, s: Bytes, file: Option<Bytes>, cut: Cut)
    requires Sendable(name, s) && |Content(file)| <= |s|
    ensures Whole(h, name, s, file, cut) ==>
              Attempt(h, name, s, file, cut)
              == GetsOutcome(h, name, file, Answered(h, name, s, Agreed(h, s, Content(file))))
  {
    hide Answered, GetsRequest, GetsReply, GetsOutcome, Agreed, Truncates;
    if Whole(h, name, s, file, cut) {
      DeliveredIsPrefix(h, name, s, file, cut);
      RequestAnswered(h, name, s, Content(file));
      var w := Answered(h, name, s, Agreed(h, s, Content(file)));
      assert Prefix(w, cut.reply) == w;
    }
  }

  lemma WholeOutcome(h: Hash, name: Bytes, s: Bytes, file: Option<Bytes>)
    requires Sendable(name, s) && |Content(file)| <= |s|
    requires !Collision(h, Content(file), s[..|Content(file)|])
    ensures var r := GetsOutcome(h, name, file, Answered(h, name, s, Agreed(h, s, Content(file))));
            && (r.status == Success && Content(r.file) == s && r.rest == []
                <==> !ModesDiffer(s, Content(file)) && FitsInt(Missing(s, Content(file))))
            && (Content(r.file) == s || (|s| > LARGE_FILE_THRESHOLD && |Content(r.file)| == |s|))
  {
    hide RecvFile, Answered, GetsOutcome, Agreed, Tail, Truncates;
    var local := Content(file);
    var a := Agreed(h, s, local);
    var w := Answered(h, name, s, a);
    OutcomeOfPrefix(h, name, s, file, w);
    WholeAnswer(h, name, s, a);
    AgreedIsPrefixTest(h, s, local);
    if a == |s| {
      TailOfAll(h, s);
    } else {
      assert Base(file, a) == s[..a];
      if !FitsInt(|s| - a) || ModesDiffer(s, local) {
        RawModeOutcome(h, s[..a], a, |s| - a, Tail(h, s, a));
      }
      if ModesDiffer(s, local) {
        DifferentModesFail(h, s, a);
        RecvFileKeepsAFile(h, s[..a], a, |s| - a, Tail(h, s, a));
      } else if FitsInt(|s| - a) {
        EqualModesSucceed(h, s, a);
      }
    }
  }

  /** Whatever the local file was - if it is no longer than the stored one -, an attempt that is not
      cut leaves one that further attempts can go on from. */
  lemma WholeAttemptLeavesResumable(h: Hash, name: Bytes, s: Bytes, file: Option<Bytes>, cut: Cut)
    requires Sendable(name, s) && |Content(file)| <= |s|
    requires !Collision(h, Content(file), s[..|Content(file)|])
    ensures Whole(h, name, s, file, cut) ==> Resumable(s, Attempt(h, name, s, file, cut).file)
  {
    hide Answered, GetsOutcome, Agreed, ModesDiffer, Missing;
    WholeIsAnswered(h, name, s, file, cut);
    WholeOutcome(h, name, s, file);
  }

  /** So the second of two attempts that are not cut succeeds from any local file, if and only if less
      than 2^31 bytes are to be transferred by then. */
  lemma SecondAttemptSucceedsIff(h: Hash, name: Bytes, s: Bytes, file: Option<Bytes>, first: Cut, second: Cut)
    requires Sendable(name, s) && |Content(file)| <= |s|
    requires !Collision(h, Content(file), s[..|Content(file)|])
    ensures var between := Attempt(h, name, s, file, first).file;
            var r := Attempt(h, name, s, between, second);
            Whole(h, name, s, file, first) && Whole(h, name, s, between, second) ==>
              && (r.status == Success <==> FitsInt(ToTransfer(h, s, between)))
              && (r.status == Success ==> r.rest == [] && Sound(h, s, r))
  {
    hide Attempt, Whole, Sound, ToTransfer;
    WholeAttemptLeavesResumable(h, name, s, file, first);
    if Whole(h, name, s, file, first) {
      var between := Attempt(h, name, s, file, first).file;
      WholeAttemptSucceedsIff(h, name, s, between, second);
      AttemptKeepsResumable(h, name, s, between, second);
    }
  }

  lemma RecvFileKeepsAFile(h: Hash, content: Bytes, base: nat, remaining: int, w: Bytes)
    requires base <= |content|
    ensures RecvFile(h, content, base, remaining, w).file.Some?
  {
  }

  /** The two modes really can differ: half of a file a little larger than the threshold. */
  lemma ModesCanDiffer()
    ensures exists s: Bytes, local: Bytes :: IsOffT(|s|) && ModesDiffer(s, local)
  {
    var s: Bytes := seq(LARGE_FILE_THRESHOLD + 1, _ => 0);
    assert ModesDiffer(s, s[..1]);
  }
}
