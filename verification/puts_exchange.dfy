/** An upload on the wire: what the client writes and what the server makes of it. */
module PutsExchange {
  import opened Wire
  import opened Digest
  import opened Net
  import opened FileReceiving
  import opened GetsServer
  import opened GetsExchange

  /** Name, size and hash; unlike in a download the hash string goes without its final NUL. */
  function PutsHeader(h: Hash, name: Bytes, content: Bytes): Bytes {
    Train(name + [0]) + Train(OffT(|content|)) + Train(Sha(h, content))
  }

  function PutsStream(h: Hash, name: Bytes, content: Bytes): Bytes {
    PutsHeader(h, name, content) + Payload(content)
  }

  method ClientPuts(h: Hash, c: Connection, filename: Bytes, file: Option<Bytes>) returns (ret: int)
    modifies c`outbound
    ensures ret == 0 <==> file.Some?
    ensures c.outbound == old(c.outbound) + match file
                                            case None => []
                                            case Some(content) => PutsStream(h, filename, content)
  {
    hide Train, OffT, Payload;
    if file == None {
      return -1;
    }
    var content := file.value;
    var fileSize := |content|;
    var fd := new OpenFile(content);
    assert content[0..fileSize] == content;
    var _, fileHash := CalculateFileSha256(h, fd, 0, fileSize);
    c.Send(Train(filename + [0]));
    c.Send(Train(OffT(fileSize)));
    c.Send(Train(fileHash));
    assert c.outbound == old(c.outbound) + PutsHeader(h, filename, content) by {
      Assoc(old(c.outbound), Train(filename + [0]), Train(OffT(fileSize)));
      Assoc(old(c.outbound), Train(filename + [0]) + Train(OffT(fileSize)), Train(fileHash));
    }
    fd := new OpenFile(content);
    assert content[0..] == content;
    SendPayload(c, fd);
    Assoc(old(c.outbound), PutsHeader(h, filename, content), Payload(content));
    return 0;
  }

  // ----- the server -----

  datatype Offer = Offer(size: int, hash: Bytes, rest: Bytes)

  function RecvSizeAndHash(w: Bytes): Option<Offer> {
    match RecvTrain(w)
    case None => None
    case Some((size, rest)) =>
      match RecvTrain(rest)
      case None => None
      case Some((hash, rest)) => Some(Offer(ReadOffT(size), CStr(hash), rest))
  }

  function RecvOffer(filename: Bytes, w: Bytes): Option<Offer> {
    match RecvTrain(w)
    case None => None
    case Some((data, rest)) =>
      if CStr(data[..|data| - 1]) != filename then None else RecvSizeAndHash(rest)
  }

  /** The blob as far as it is received; it starts out truncated. */
  function RecvBlob(size: int, w: Bytes): Received {
    if size > LARGE_FILE_THRESHOLD then RecvRaw(true, Resized([], size), 0, w)
    else RecvFrames([], 0, w)
  }

  method ReceiveOffer(c: Connection, filename: Bytes) returns (ok: bool, size: int, hash: Bytes)
    modifies c`inbound
    ensures ok <==> RecvOffer(filename, old(c.inbound)).Some?
    ensures ok ==> RecvOffer(filename, old(c.inbound)).value == Offer(size, hash, c.inbound)
  {
    var data, sizeData, hashData;
    ok, data := ReceiveTrain(c);
    if !ok {
      return false, 0, [];
    }
    if CStr(data[..|data| - 1]) != filename {
      return false, 0, [];
    }
    ok, sizeData := ReceiveTrain(c);
    if !ok {
      return false, 0, [];
    }
    ok, hashData := ReceiveTrain(c);
    if !ok {
      return false, 0, [];
    }
    return true, ReadOffT(sizeData), CStr(hashData);
  }

  method ReceiveBlob(c: Connection, size: int) returns (complete: bool, content: Bytes)
    modifies c`inbound
    ensures complete == RecvBlob(size, old(c.inbound)).complete
    ensures content == RecvBlob(size, old(c.inbound)).content
    ensures complete ==> c.inbound == RecvBlob(size, old(c.inbound)).rest
  {
    var f := new LocalFile(Some([]));
    if size > LARGE_FILE_THRESHOLD {
      complete := ReceiveRaw(true, c, f, 0, size);
    } else {
      complete := ReceiveFrames(c, f, 0);
    }
    content := f.content.value;
  }

  // ----- both together -----

  lemma SizeAndHashOfPrefix(size: nat, hash: Bytes, tail: Bytes, w: Bytes)
    requires IsOffT(size) && 0 < |hash| < 0x8000_0000 && 0 !in hash
    requires w <= Train(OffT(size)) + (Train(hash) + tail)
    ensures |w| < 16 + |hash| ==> RecvSizeAndHash(w) == None
    ensures |w| >= 16 + |hash| ==>
              w[16 + |hash|..] <= tail && RecvSizeAndHash(w) == Some(Offer(size, hash, w[16 + |hash|..]))
  {
    OffTRoundTrip(size);
    CStrOfTerminated(hash, []);
    RecvTrainOfPrefix(OffT(size), Train(hash) + tail, w);
    if |w| >= 12 {
      var rest := w[12..];
      RecvTrainOfPrefix(hash, tail, rest);
      if |rest| >= 4 + |hash| {
        assert rest[4 + |hash|..] == w[16 + |hash|..];
      }
    }
  }

  function HeaderLength(name: Bytes): nat {
    85 + |name|
  }

  lemma HeaderAssoc(h: Hash, name: Bytes, content: Bytes, tail: Bytes)
    ensures PutsHeader(h, name, content) + tail
         == Train(name + [0]) + (Train(OffT(|content|)) + (Train(Sha(h, content)) + tail))
  {
    hide Train, OffT, Sha;
    var x, y, z := Train(name + [0]), Train(OffT(|content|)), Train(Sha(h, content));
    Assoc(x + y, z, tail);
    Assoc(x, y, z + tail);
  }

  /** From a cut upload the server learns nothing, or size and hash as they were sent. */
  lemma OfferOfPrefix(h: Hash, name: Bytes, content: Bytes, tail: Bytes, w: Bytes)
    requires Sendable(name, content)
    requires w <= PutsHeader(h, name, content) + tail
    ensures |w| < HeaderLength(name) ==> RecvOffer(name, w) == None
    ensures |w| >= HeaderLength(name) ==>
              && w[HeaderLength(name)..] <= tail
              && RecvOffer(name, w) == Some(Offer(|content|, Sha(h, content), w[HeaderLength(name)..]))
  {
    hide RecvSizeAndHash, OffT, PutsHeader, RecvTrain, Sha;
    HeaderAssoc(h, name, content, tail);
    var rest := Train(OffT(|content|)) + (Train(Sha(h, content)) + tail);
    var first := name + [0];
    RecvTrainOfPrefix(first, rest, w);
    if |w| >= 4 + |first| {
      var left := w[4 + |first|..];
      assert first[..|first| - 1] == name;
      CStrOfTerminated(name, []);
      SizeAndHashOfPrefix(|content|, Sha(h, content), tail, left);
      if |left| >= 80 {
        assert left[80..] == w[HeaderLength(name)..];
      }
    }
  }

  /** On a miss: from a cut body the server completes the blob only with the very content; from the
      whole body it does complete it, if it has less than 2^31 bytes, and the bytes behind the body
      stay on the connection. */
  lemma BlobOfPrefix(content: Bytes, later: Bytes, w: Bytes)
    requires w <= Payload(content) + later
    ensures var r := RecvBlob(|content|, w);
            && (r.complete ==> FitsInt(|content|) && r.content == content && r.rest <= later)
            && (r.complete ==> |w| == |Payload(content)| + |r.rest|)
            && (w == Payload(content) + later && FitsInt(|content|) ==> r.complete && r.rest == later)
  {
    hide EncodeChunks, RecvFrames, RecvRaw, Resized;
    if |content| > LARGE_FILE_THRESHOLD {
      RawOfPrefix(true, content, later, w);
    } else {
      Assoc(EncodeChunks(content), END_MARK, later);
      assert content[0..] == content && content[..0] == [];
      FramesOfPrefix(content, 0, later, w);
    }
  }

  /** A whole upload with anything behind it: the server learns name, size and hash; if it needs the
      body it reproduces the file and leaves exactly the later bytes, as long as there are less than
      2^31; and if it does not (instant transfer) the residue on the connection is exactly the encoded
      body before those bytes. */
  lemma UploadRoundTrip(h: Hash, name: Bytes, content: Bytes, later: Bytes)
    requires Sendable(name, content)
    ensures var o := RecvOffer(name, PutsStream(h, name, content) + later);
            && o == Some(Offer(|content|, Sha(h, content), Payload(content) + later))
            && if FitsInt(|content|) then RecvBlob(|content|, o.value.rest) == Received(true, content, later)
               else !RecvBlob(|content|, o.value.rest).complete
  {
    hide Payload, RecvBlob, RecvOffer, Sha;
    var w := PutsStream(h, name, content) + later;
    Assoc(PutsHeader(h, name, content), Payload(content), later);
    HeaderIsLong(h, name, content);
    OfferOfPrefix(h, name, content, Payload(content) + later, w);
    assert w[HeaderLength(name)..] == Payload(content) + later;
    BlobOfPrefix(content, later, Payload(content) + later);
  }

  lemma HeaderIsLong(h: Hash, name: Bytes, content: Bytes)
    ensures |PutsHeader(h, name, content)| == HeaderLength(name)
  {
  }

  // ----- what an instant transfer leaves behind -----

  /** The next train of the encoded body of a small file. */
  lemma TrainOfResidue(content: Bytes, later: Bytes)
    requires |content| <= LARGE_FILE_THRESHOLD
    ensures var n := Min(DATA_SIZE, |content|);
            RecvTrain(Payload(content) + later)
            == if content == [] then None else Some((content[..n], Payload(content[n..]) + later))
  {
    hide EncodeChunks, RecvTrain;
    Assoc(EncodeChunks(content), END_MARK, later);
    if content == [] {
      NoChunks();
      assert Payload(content) + later == END_MARK + later;
      EndMarkIsNoTrain(later);
    } else {
      var n := Min(DATA_SIZE, |content|);
      EncodeChunksStep(content, n);
      Assoc(Train(content[..n]), EncodeChunks(content[n..]), END_MARK + later);
      Assoc(EncodeChunks(content[n..]), END_MARK, later);
      RecvTrainInvertsTrain(content[..n], Payload(content[n..]) + later);
    }
  }

  lemma EndMarkIsNoTrain(later: Bytes)
    ensures RecvTrain(END_MARK + later) == None
  {
    RecvEndMark(later);
  }

  /** The residue starts like a request for `nextName`: it has a third train, and its first is read as
      that name. */
  predicate LooksLikeRequest(content: Bytes, nextName: Bytes) {
    |content| > 2 * DATA_SIZE && CStr(content[..DATA_SIZE - 1]) == nextName
  }

  /** What an instant transfer of a small file costs: the client has sent the body all the same, the
      connection is used again, and the server takes the residue for the next request, whatever comes
      behind it. The next upload is refused exactly when the residue does not look like a request for
      it; if it does, the second train is taken for the size and the third for the hash. (Once the first
      train has passed for the name, the second, of up to 4096 bytes, is received into a variable of 8:
      what this says of such residues supposes that the bytes too many do no harm.) */
  lemma InstantUploadBlocksTheNextIff(content: Bytes, later: Bytes, nextName: Bytes)
    requires |content| <= LARGE_FILE_THRESHOLD
    ensures RecvOffer(nextName, Payload(content) + later) == None <==> !LooksLikeRequest(content, nextName)
    ensures LooksLikeRequest(content, nextName) ==>
              var n := Min(3 * DATA_SIZE, |content|);
              RecvOffer(nextName, Payload(content) + later)
              == Some(Offer(ReadOffT(content[DATA_SIZE..2 * DATA_SIZE]), CStr(content[2 * DATA_SIZE..n]),
                            Payload(content[n..]) + later))
  {
    hide Payload, RecvTrain, CStr, ReadOffT;
    TrainOfResidue(content, later);
    if content != [] {
      var n := Min(DATA_SIZE, |content|);
      assert content[..n][..n - 1] == content[..n - 1];
      SizeAndHashOfResidue(content[n..], later);
      if |content| > 2 * DATA_SIZE {
        ThirdTrain(content);
      }
    }
  }

  lemma ThirdTrain(content: Bytes)
    requires |content| > 2 * DATA_SIZE
    ensures var second, n := content[DATA_SIZE..], Min(3 * DATA_SIZE, |content|);
            && second[..DATA_SIZE] == content[DATA_SIZE..2 * DATA_SIZE]
            && second[DATA_SIZE..n - DATA_SIZE] == content[2 * DATA_SIZE..n]
            && second[n - DATA_SIZE..] == content[n..]
  {
  }

  lemma SizeAndHashOfResidue(content: Bytes, later: Bytes)
    requires |content| <= LARGE_FILE_THRESHOLD
    ensures var n := Min(2 * DATA_SIZE, |content|);
            RecvSizeAndHash(Payload(content) + later)
            == if |content| <= DATA_SIZE then None
               else Some(Offer(ReadOffT(content[..DATA_SIZE]), CStr(content[DATA_SIZE..n]),
                               Payload(content[n..]) + later))
  {
    hide Payload, RecvTrain, CStr, ReadOffT;
    TrainOfResidue(content, later);
    if content != [] {
      var n := Min(DATA_SIZE, |content|);
      TrainOfResidue(content[n..], later);
      if |content| > DATA_SIZE {
        var m := Min(2 * DATA_SIZE, |content|);
        assert content[n..][..m - n] == content[n..m] && content[n..][m - n..] == content[m..];
      }
    }
  }
}
