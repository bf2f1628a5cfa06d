/** What an upload leaves on the data connection, and what the next upload makes of it. */
module Residue {
  import opened Wire
  import opened Digest
  import opened GetsExchange
  import opened GetsServer
  import opened PutsExchange
  import opened Table
  import opened Disk

  /** A whole upload by the client with anything behind it: it is recorded at once if the hash is known,
      and then its body stays on the connection; otherwise it is recorded if the body has less than 2^31
      bytes, and then exactly the later bytes stay. */
  lemma RecordedUploadLeaves(h: Hash, d: State, s: Session, name: Bytes, content: Bytes, later: Bytes)
    requires Sendable(name, content) && UserId(d, s.username) >= 0
    ensures var w := PutsStream(h, name, content) + later;
            var known := First(d, WithHash(Sha(h, content))).Some?;
            && (Puts(d, s, name, w).ok <==> known || FitsInt(|content|))
            && (Puts(d, s, name, w).ok ==> PutsRest(d, name, w) == if known then Payload(content) + later else later)
  {
    hide PutsStream, RecvOffer, RecvBlob, First, Sha, Payload;
    UploadRoundTrip(h, name, content, later);
    ShaIsFileName(h, d.outside, content);
  }

  // ----- an instant upload and the next one -----

  const BODY: Bytes := [97] + Zeros(8192)

  function Zeros(n: nat): (z: Bytes)
    ensures |z| == n
    ensures forall i | 0 <= i < n :: z[i] == 0
  {
    seq(n, _ => 0)
  }

  lemma {:induction false} UnsignedOfZeros(b: Bytes)
    requires forall i | 0 <= i < |b| :: b[i] == 0
    ensures Unsigned(b) == 0
  {
    if b != [] {
      UnsignedOfZeros(b[1..]);
    }
  }

  lemma ReadOffTOfZeros(b: Bytes)
    requires forall i | 0 <= i < |b| :: b[i] == 0
    ensures ReadOffT(b) == 0
  {
    UnsignedOfZeros((b + [0, 0, 0, 0, 0, 0, 0, 0])[..8]);
  }

  /** An input on which an instant upload puts a row into the table that nobody asked for. A file of "a"
      and 8192 zero bytes is uploaded instantly; the next upload is for a file called "a". Its request
      is never read: the residue passes for one, with size 0 and the empty hash, which the rows of
      directories have. So a file row with size 0 and no blob is recorded, whatever the client sends -
      provided the 4096 bytes received into the 8 of the size do no harm. */
  lemma ResidueBecomesARow(d: State, s: Session, later: Bytes)
    requires UserId(d, s.username) >= 0 && First(d, WithHash([])).Some?
    ensures |BODY| <= LARGE_FILE_THRESHOLD
    ensures var dirId := DirId(d, UserId(d, s.username), s.cwd);
            Puts(d, s, [97], Payload(BODY) + later)
            == Effect(Insert(d, FileRow(UserId(d, s.username), if dirId < 0 then 0 else dirId, s.cwd, [97], [], 0)),
                      s.cwd, true)
  {
    hide Payload, RecvOffer, RecvBlob, First, ReadOffT, Zeros, CStr;
    InstantUploadBlocksTheNextIff(BODY, later, [97]);
    CStrIsUnique(BODY[..DATA_SIZE - 1], 1);
    CStrIsUnique(BODY[2 * DATA_SIZE..8193], 0);
    ReadOffTOfZeros(BODY[DATA_SIZE..2 * DATA_SIZE]);
    assert BODY[..DATA_SIZE - 1][..1] == [97];
    assert LooksLikeRequest(BODY, [97]);
  }
}
