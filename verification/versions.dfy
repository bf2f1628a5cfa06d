/** Shared blobs: what names them, what never changes them, and the versions of a path as a queue. */
module Versions {
  import opened Wire
  import opened Digest
  import opened GetsExchange
  import opened PutsExchange
  import opened Paths
  import opened Table
  import opened Disk
  import opened Runs
  import opened Tree
  import C = CurrentDirectory
  import GS = GetsServer
  import F = FileReceiving

  /** SHA-256 tells the members of a set of contents apart. */
  ghost predicate CollisionFree(h: Hash, contents: set<Bytes>) {
    forall x, y | x in contents && y in contents && h(x) == h(y) :: x == y
  }

  /** The command is not an upload, or is one by the repository's client of some known content. */
  predicate FromClient(contents: set<Bytes>, c: Command) {
    !c.Puts? && (c.Upload? ==> c.content in contents && Sendable(c.filename, c.content))
  }

  predicate AllFromClients(contents: set<Bytes>, events: seq<Event>) {
    forall i | 0 <= i < |events| :: FromClient(contents, events[i].command)
  }

  predicate StoredRow(h: Hash, contents: set<Bytes>, blobs: map<Bytes, Bytes>, r: Row) {
    match r.kind
    case Directory => r.sha256 == []
    case File =>
      && r.sha256 in blobs
      && blobs[r.sha256] in contents
      && r.sha256 == Sha(h, blobs[r.sha256])
      && r.filesize == |blobs[r.sha256]|
      && FitsInt(r.filesize)
  }

  /** Every file row names a stored blob with that hash and that size, a whole upload of some client
      with less than 2^31 bytes. */
  ghost predicate BlobsInOrder(h: Hash, contents: set<Bytes>, d: State) {
    forall r | r in d.rows :: StoredRow(h, contents, d.blobs, r)
  }

  // ----- a named blob never changes -----

  ghost predicate Named(d: State, file: Bytes) {
    exists r :: r in d.rows && FileOf(d.outside, r.sha256) == Some(file)
  }

  predicate SameFile(blobs: map<Bytes, Bytes>, blobs': map<Bytes, Bytes>, file: Bytes) {
    (file in blobs' <==> file in blobs) && (file in blobs ==> blobs'[file] == blobs[file])
  }

  /** File name and bytes of an upload. */
  function Inbound(h: Hash, c: Command): Option<(Bytes, Bytes)> {
    match c
    case Puts(filename, w) => Some((filename, w))
    case Upload(filename, content, sent) => Some((filename, UploadStream(h, filename, content, sent)))
    case _ => None
  }

  /** The upload opens a blob with truncation that some row names: under another spelling, since no row
      has the hash it announces. */
  ghost predicate Overwrites(d: State, s: Session, filename: Bytes, w: Bytes) {
    var offer := RecvOffer(filename, w);
    && offer.Some? && UserId(d, s.username) >= 0
    && First(d, WithHash(offer.value.hash)) == None
    && FileOf(d.outside, offer.value.hash).Some? && Named(d, FileOf(d.outside, offer.value.hash).value)
  }

  ghost predicate MayOverwrite(h: Hash, d: State, s: Session, c: Command) {
    Inbound(h, c).Some? && Overwrites(d, s, Inbound(h, c).value.0, Inbound(h, c).value.1)
  }

  lemma PutsKeepsNamed(d: State, s: Session, filename: Bytes, w: Bytes, file: Bytes)
    requires Named(d, file) && !Overwrites(d, s, filename, w)
    ensures SameFile(d.blobs, Disk.Puts(d, s, filename, w).state.blobs, file)
  {
    hide RecvOffer, RecvBlob, Named, First;
  }

  /** Whatever arrives and from whom: a blob that some row names stays, unless the upload announces it
      under another spelling. */
  lemma NamedBlobsStay(h: Hash, d: State, s: Session, c: Command, file: Bytes)
    requires Named(d, file) && !MayOverwrite(h, d, s, c)
    ensures SameFile(d.blobs, Perform(h, d, s, c).state.blobs, file)
  {
    hide Normalized, Disk.Puts, Select, SameFile, Overwrites, Named;
    match Inbound(h, c)
    case Some((filename, w)) =>
      PutsKeepsNamed(d, s, filename, w, file);
      PerformIsPuts(h, d, s, c);
    case None => KeepsBlobs(h, d, s, c, file);
  }

  lemma PerformIsPuts(h: Hash, d: State, s: Session, c: Command)
    requires Inbound(h, c).Some?
    ensures Perform(h, d, s, c) == Disk.Puts(d, s, Inbound(h, c).value.0, Inbound(h, c).value.1)
  {
  }

  lemma KeepsBlobs(h: Hash, d: State, s: Session, c: Command, file: Bytes)
    requires Inbound(h, c).None?
    ensures SameFile(d.blobs, Perform(h, d, s, c).state.blobs, file)
  {
    hide Disk.Login, Disk.Cd, Disk.Mkdir, Disk.Rmdir, Disk.Rm, Disk.Puts, SameFile;
    assert Perform(h, d, s, c).state.blobs == d.blobs;
    Unchanged(d.blobs, file);
  }

  lemma Unchanged(blobs: map<Bytes, Bytes>, file: Bytes)
    ensures SameFile(blobs, blobs, file)
  {
  }

  /** All named blobs stay exactly when the upload overwrites none, or only with the bytes it has. */
  lemma NamedBlobsStayIff(d: State, s: Session, filename: Bytes, w: Bytes)
    ensures var blobs := Disk.Puts(d, s, filename, w).state.blobs;
            (forall file | Named(d, file) :: SameFile(d.blobs, blobs, file))
            <==> (Overwrites(d, s, filename, w) ==>
                    var offer := RecvOffer(filename, w).value;
                    var file := FileOf(d.outside, offer.hash).value;
                    file in d.blobs && d.blobs[file] == RecvBlob(offer.size, offer.rest).content)
  {
    hide RecvOffer, RecvBlob, Named, First;
    forall file | Named(d, file) && !Overwrites(d, s, filename, w)
      ensures SameFile(d.blobs, Disk.Puts(d, s, filename, w).state.blobs, file)
    {
      PutsKeepsNamed(d, s, filename, w, file);
    }
  }

  // ----- hashes without a slash -----

  predicate Plain(sha256: Bytes) {
    SLASH !in sha256
  }

  predicate PlainRows(rows: seq<Row>) {
    forall r | r in rows :: Plain(r.sha256)
  }

  /** If the command announces a hash, it has no slash. */
  predicate PlainCommand(h: Hash, c: Command) {
    var inbound := Inbound(h, c);
    inbound.Some? && RecvOffer(inbound.value.0, inbound.value.1).Some? ==>
      Plain(RecvOffer(inbound.value.0, inbound.value.1).value.hash)
  }

  lemma PlainFileIsFound(d: State, sha256: Bytes)
    requires PlainRows(d.rows) && Plain(sha256)
    requires FileOf(d.outside, sha256).Some? && Named(d, FileOf(d.outside, sha256).value)
    ensures First(d, WithHash(sha256)).Some?
  {
    var r :| r in d.rows && FileOf(d.outside, r.sha256) == FileOf(d.outside, sha256);
    assert Plain(r.sha256);
    assert r in Select(d.rows, WithHash(sha256));
  }

  /** Hashes without a slash name the files they look like, so none is overwritten. */
  lemma PlainNeverOverwrites(h: Hash, d: State, s: Session, c: Command)
    requires PlainRows(d.rows) && PlainCommand(h, c)
    ensures !MayOverwrite(h, d, s, c)
  {
    hide RecvOffer, FileOf, Named, First, PlainRows, Plain;
    if Inbound(h, c).Some? {
      var (filename, w) := Inbound(h, c).value;
      var offer := RecvOffer(filename, w);
      if offer.Some? {
        var file := FileOf(d.outside, offer.value.hash);
        if file.Some? && Named(d, file.value) {
          PlainFileIsFound(d, offer.value.hash);
        }
      }
    }
  }

  lemma PerformKeepsPlain(h: Hash, d: State, s: Session, c: Command)
    requires PlainRows(d.rows) && PlainCommand(h, c)
    ensures PlainRows(Perform(h, d, s, c).state.rows)
  {
    hide PlainRows, Plain, RecvOffer, Disk.Login, Disk.Cd, Disk.Mkdir, Disk.Rmdir, Disk.Rm, Disk.Puts;
    match c
    case Login => LoginKeepsPlain(d, s);
    case Cd(dir) => CdKeepsState(d, s, dir);
    case Mkdir(dir) => MkdirKeepsPlain(d, s, dir);
    case Rmdir(dir) => RemovalKeepsPlain(d, s, dir);
    case Rm(file) => RemovalKeepsPlain(d, s, file);
    case Puts(filename, w) => PutsKeepsPlain(d, s, filename, w);
    case Upload(filename, content, sent) => PutsKeepsPlain(d, s, filename, UploadStream(h, filename, content, sent));
  }

  lemma InsertKeepsPlain(d: State, row: Row)
    requires PlainRows(d.rows) && Plain(row.sha256)
    ensures PlainRows(Insert(d, row).rows)
  {
  }

  lemma LoginKeepsPlain(d: State, s: Session)
    requires PlainRows(d.rows)
    ensures PlainRows(Disk.Login(d, s).state.rows)
  {
    hide PlainRows, Insert;
    InsertKeepsPlain(d, DirectoryRow(UserId(d, s.username), 0, RootOf(s.username), s.username));
  }

  lemma MkdirKeepsPlain(d: State, s: Session, dir: Bytes)
    requires PlainRows(d.rows)
    ensures PlainRows(Disk.Mkdir(d, s, dir).state.rows)
  {
    hide PlainRows, Insert, Normalized, First, ParentOf, NameOf;
    var path := Normalized(s.cwd, dir, s.username);
    var parent := First(d, DirectoryAt(UserId(d, s.username), ParentOf(path)));
    if parent.Some? {
      InsertKeepsPlain(d, DirectoryRow(UserId(d, s.username), parent.value.id, path, NameOf(path)));
    }
  }

  lemma RemoveKeepsPlain(d: State, userId: int, id: int)
    requires PlainRows(d.rows)
    ensures PlainRows(Remove(d, userId, id).rows)
  {
  }

  lemma RemovalKeepsPlain(d: State, s: Session, name: Bytes)
    requires PlainRows(d.rows)
    ensures PlainRows(Disk.Rmdir(d, s, name).state.rows)
    ensures PlainRows(Disk.Rm(d, s, name).state.rows)
  {
    hide PlainRows, Remove, Normalized, Select;
    var path, userId := Normalized(s.cwd, name, s.username), UserId(d, s.username);
    var dir, file := First(d, DirectoryAt(userId, path)), First(d, FileAt(userId, path));
    if dir.Some? {
      RemoveKeepsPlain(d, userId, dir.value.id);
    }
    if file.Some? {
      RemoveKeepsPlain(d, userId, file.value.id);
    }
  }

  lemma PutsKeepsPlain(d: State, s: Session, filename: Bytes, w: Bytes)
    requires PlainRows(d.rows)
    requires RecvOffer(filename, w).Some? ==> Plain(RecvOffer(filename, w).value.hash)
    ensures PlainRows(Disk.Puts(d, s, filename, w).state.rows)
  {
    hide Plain, RecvOffer, RecvBlob, First, FileOf;
  }

  predicate AllPlain(h: Hash, events: seq<Event>) {
    forall i | 0 <= i < |events| :: PlainCommand(h, events[i].command)
  }

  ghost predicate NeverOverwrites(h: Hash, d: State, events: seq<Event>)
    decreases |events|
  {
    events == [] || (!MayOverwrite(h, d, events[0].session, events[0].command)
                     && NeverOverwrites(h, Step(h, d, events[0]), events[1..]))
  }

  lemma {:induction false} PlainRunsNeverOverwrite(h: Hash, d: State, events: seq<Event>)
    requires PlainRows(d.rows) && AllPlain(h, events)
    ensures NeverOverwrites(h, d, events)
    decreases |events|
  {
    hide MayOverwrite, PlainRows, PlainCommand, Perform;
    if events != [] {
      PlainNeverOverwrites(h, d, events[0].session, events[0].command);
      PerformKeepsPlain(h, d, events[0].session, events[0].command);
      PlainRunsNeverOverwrite(h, Step(h, d, events[0]), events[1..]);
    }
  }

  // ----- other spellings -----

  /** What a client has to send to announce a hash, an empty body and nothing else. */
  function Announcing(filename: Bytes, sha256: Bytes): Bytes {
    Train(filename + [0]) + (Train(OffT(0)) + (Train(sha256) + []))
  }

  lemma AnnouncedOffer(filename: Bytes, sha256: Bytes)
    requires SendableName(filename) && 0 !in sha256 && 0 < |sha256| && FitsInt(|sha256|)
    ensures RecvOffer(filename, Announcing(filename, sha256)) == Some(Offer(0, sha256, []))
  {
    hide Train, OffT, CStr, RecvTrain, RecvSizeAndHash;
    var rest := Train(OffT(0)) + (Train(sha256) + []);
    RecvTrainInvertsTrain(filename + [0], rest);
    CStrOfTerminated(filename, []);
    assert (filename + [0])[..|filename|] == filename;
    AnnouncedSize(sha256);
  }

  lemma AnnouncedSize(sha256: Bytes)
    requires 0 !in sha256 && 0 < |sha256| && FitsInt(|sha256|)
    ensures RecvSizeAndHash(Train(OffT(0)) + (Train(sha256) + [])) == Some(Offer(0, sha256, []))
  {
    hide RecvSizeAndHash;
    SizeAndHashOfPrefix(0, sha256, [], Train(OffT(0)) + (Train(sha256) + []));
  }

  lemma NothingReceived()
    ensures RecvBlob(0, []) == F.Received(false, [], [])
  {
  }

  /** A second spelling of a row's hash that no row has: announced with nothing behind it, it empties
      the row's blob. */
  lemma OtherSpellingOverwrites(d: State, s: Session, filename: Bytes, r: Row, spelling: Bytes)
    requires UserId(d, s.username) >= 0 && SendableName(filename)
    requires r in d.rows && FileOf(d.outside, r.sha256).Some?
    requires FileOf(d.outside, spelling) == FileOf(d.outside, r.sha256)
    requires First(d, WithHash(spelling)) == None
    requires 0 !in spelling && 0 < |spelling| && FitsInt(|spelling|)
    ensures Overwrites(d, s, filename, Announcing(filename, spelling))
    ensures Disk.Puts(d, s, filename, Announcing(filename, spelling)).state.blobs
         == d.blobs[FileOf(d.outside, r.sha256).value := []]
  {
    hide Announcing, RecvOffer, RecvBlob, FileOf, First;
    AnnouncedOffer(filename, spelling);
    NothingReceived();
    assert Named(d, FileOf(d.outside, r.sha256).value);
  }

  /** A slash in front is such a spelling, for every row of every table of slash-free hashes. */
  lemma SlashedHashOverwrites(d: State, s: Session, filename: Bytes, r: Row)
    requires UserId(d, s.username) >= 0 && SendableName(filename) && PlainRows(d.rows)
    requires r in d.rows && IsFileName(r.sha256) && 0 !in r.sha256 && FitsInt(1 + |r.sha256|)
    ensures var w := Announcing(filename, [SLASH] + r.sha256);
            && Overwrites(d, s, filename, w)
            && Disk.Puts(d, s, filename, w).state.blobs == d.blobs[r.sha256 := []]
  {
    hide Announcing, Overwrites, Disk.Puts, PlainRows;
    var spelling := [SLASH] + r.sha256;
    assert spelling[1..] == r.sha256;
    NotAmongPlain(d, spelling);
    OtherSpellingOverwrites(d, s, filename, r, spelling);
  }

  /** A path out of the directory and back is another. */
  lemma LeadingOutOverwrites(d: State, s: Session, filename: Bytes, r: Row, way: Bytes)
    requires UserId(d, s.username) >= 0 && SendableName(filename) && PlainRows(d.rows)
    requires r in d.rows && IsFileName(r.sha256)
    requires LeadsOut(way) && 0 !in way && FitsInt(|way|) && d.outside(way) == Some(r.sha256)
    ensures var w := Announcing(filename, way);
            && Overwrites(d, s, filename, w)
            && Disk.Puts(d, s, filename, w).state.blobs == d.blobs[r.sha256 := []]
  {
    hide Announcing, Overwrites, Disk.Puts, PlainRows;
    NotAmongPlain(d, way);
    OtherSpellingOverwrites(d, s, filename, r, way);
  }

  lemma NotAmongPlain(d: State, sha256: Bytes)
    requires PlainRows(d.rows) && SLASH in sha256
    ensures First(d, WithHash(sha256)) == None
  {
    assert forall r | r in d.rows :: Plain(r.sha256);
    SelectNothing(d.rows, WithHash(sha256));
  }

  // ----- the invariant -----

  /** What an upload by the client comes to. */
  lemma UploadCases(h: Hash, filename: Bytes, content: Bytes, sent: nat)
    requires Sendable(filename, content)
    ensures var w := UploadStream(h, filename, content, sent);
            match RecvOffer(filename, w)
            case None => sent < HeaderLength(filename)
            case Some(offer) =>
              && sent >= HeaderLength(filename)
              && offer.size == |content| && offer.hash == Sha(h, content)
              && var blob := RecvBlob(|content|, offer.rest);
                 (blob.complete <==> sent >= |PutsStream(h, filename, content)| && FitsInt(|content|))
                 && (blob.complete ==> blob.content == content)
  {
    hide PutsHeader, GS.Payload, RecvOffer, RecvBlob, Sha;
    var w := UploadStream(h, filename, content, sent);
    var payload := GS.Payload(content);
    OfferOfPrefix(h, filename, content, payload, w);
    HeaderIsLong(h, filename, content);
    if sent >= HeaderLength(filename) {
      var rest := w[HeaderLength(filename)..];
      assert payload + [] == payload;
      BlobOfPrefix(content, [], rest);
      var blob := RecvBlob(|content|, rest);
      if sent >= |PutsStream(h, filename, content)| {
        assert w == PutsStream(h, filename, content);
        assert rest == payload;
      }
    }
  }

  lemma InsertKeepsBlobs(h: Hash, contents: set<Bytes>, d: State, row: Row)
    requires BlobsInOrder(h, contents, d) && StoredRow(h, contents, d.blobs, row)
    ensures BlobsInOrder(h, contents, Insert(d, row))
  {
  }

  lemma NewBlobKeepsOrder(h: Hash, contents: set<Bytes>, d: State, sha256: Bytes, blob: Bytes)
    requires BlobsInOrder(h, contents, d) && First(d, WithHash(sha256)) == None
    ensures BlobsInOrder(h, contents, d.(blobs := d.blobs[sha256 := blob]))
  {
    forall r | r in d.rows
      ensures StoredRow(h, contents, d.blobs[sha256 := blob], r)
    {
      assert StoredRow(h, contents, d.blobs, r);
      assert r.sha256 == sha256 ==> r in Select(d.rows, WithHash(sha256));
    }
  }

  /** A known hash belongs to the very content. */
  lemma HitIsSameContent(h: Hash, contents: set<Bytes>, d: State, content: Bytes)
    requires BlobsInOrder(h, contents, d) && CollisionFree(h, contents) && content in contents
    requires First(d, WithHash(Sha(h, content))) != None
    ensures Sha(h, content) in d.blobs && d.blobs[Sha(h, content)] == content && FitsInt(|content|)
  {
    var r := First(d, WithHash(Sha(h, content))).value;
    FoundRow(d, WithHash(Sha(h, content)));
    assert StoredRow(h, contents, d.blobs, r);
    SameShaMeansSameContentOrCollision(h, content, d.blobs[r.sha256]);
  }

  /** The row an upload by the client records, if it records one. */
  function UploadRow(h: Hash, d: State, s: Session, filename: Bytes, content: Bytes): Row {
    var userId := UserId(d, s.username);
    var dirId := DirId(d, userId, s.cwd);
    FileRow(userId, if dirId < 0 then 0 else dirId, s.cwd, filename, Sha(h, content), |content|)
  }

  /** An upload by the client, in full: it is recorded exactly when the user is known, the header has
      arrived, and either the hash is known already or the whole body has arrived and has less than
      2^31 bytes. */
  lemma UploadEffect(h: Hash, contents: set<Bytes>, d: State, s: Session, filename: Bytes, content: Bytes, sent: nat)
    requires BlobsInOrder(h, contents, d) && CollisionFree(h, contents)
    requires content in contents && Sendable(filename, content)
    ensures var e := Perform(h, d, s, Upload(filename, content, sent));
            var sha256 := Sha(h, content);
            && e.ok == (&& UserId(d, s.username) >= 0 && sent >= HeaderLength(filename)
                        && (First(d, WithHash(sha256)).Some?
                            || (sent >= |PutsStream(h, filename, content)| && FitsInt(|content|))))
            && BlobsInOrder(h, contents, e.state)
            && e.state.rows == (if e.ok then Insert(d, UploadRow(h, d, s, filename, content)).rows else d.rows)
            && (e.ok ==> sha256 in e.state.blobs && e.state.blobs[sha256] == content && FitsInt(|content|))
  {
    hide RecvOffer, RecvBlob, UploadStream, PutsStream, First, Sha, BlobsInOrder, CollisionFree;
    var w := UploadStream(h, filename, content, sent);
    UploadCases(h, filename, content, sent);
    var offer := RecvOffer(filename, w);
    if offer.Some? && UserId(d, s.username) >= 0 {
      var row := UploadRow(h, d, s, filename, content);
      ShaIsFileName(h, d.outside, content);
      if First(d, WithHash(Sha(h, content))).Some? {
        HitIsSameContent(h, contents, d, content);
        StoredFileRow(h, contents, d.blobs, row, content);
        InsertKeepsBlobs(h, contents, d, row);
      } else {
        var blob := RecvBlob(|content|, offer.value.rest);
        var stored := d.(blobs := d.blobs[Sha(h, content) := blob.content]);
        NewBlobKeepsOrder(h, contents, d, Sha(h, content), blob.content);
        if blob.complete {
          StoredFileRow(h, contents, stored.blobs, row, content);
          InsertKeepsBlobs(h, contents, stored, row);
        }
      }
    }
  }

  lemma StoredFileRow(h: Hash, contents: set<Bytes>, blobs: map<Bytes, Bytes>, row: Row, content: Bytes)
    requires row.kind == File && row.sha256 == Sha(h, content) && row.filesize == |content| && content in contents
    requires FitsInt(|content|)
    requires row.sha256 in blobs && blobs[row.sha256] == content
    ensures StoredRow(h, contents, blobs, row)
  {
  }

  lemma StepKeepsBlobs(h: Hash, contents: set<Bytes>, d: State, e: Event)
    requires BlobsInOrder(h, contents, d) && CollisionFree(h, contents) && FromClient(contents, e.command)
    ensures BlobsInOrder(h, contents, Step(h, d, e))
  {
    hide Normalized, Disk.Puts, Select, Sha;
    match e.command
    case Upload(filename, content, sent) => UploadEffect(h, contents, d, e.session, filename, content, sent);
    case _ =>
  }

  lemma {:induction false} RunKeepsBlobs(h: Hash, contents: set<Bytes>, d: State, events: seq<Event>)
    requires BlobsInOrder(h, contents, d) && CollisionFree(h, contents) && AllFromClients(contents, events)
    ensures BlobsInOrder(h, contents, Run(h, d, events))
    decreases |events|
  {
    hide Step, CollisionFree, BlobsInOrder;
    if events != [] {
      StepKeepsBlobs(h, contents, d, events[0]);
      RunKeepsBlobs(h, contents, Step(h, d, events[0]), events[1..]);
    }
  }

  /** Interrupted uploads, instant uploads and removals in any order: every file row names a stored
      blob with its hash and its size. */
  lemma ReachableBlobsInOrder(
      h: Hash, contents: set<Bytes>, users: map<Bytes, int>, outside: Outside, events: seq<Event>)
    requires CollisionFree(h, contents) && AllFromClients(contents, events)
    ensures BlobsInOrder(h, contents, Run(h, Initial(users, outside), events))
  {
    RunKeepsBlobs(h, contents, Initial(users, outside), events);
  }

  lemma ClientsNeverOverwrite(h: Hash, contents: set<Bytes>, d: State, s: Session, c: Command)
    requires BlobsInOrder(h, contents, d) && FromClient(contents, c)
    ensures !MayOverwrite(h, d, s, c)
  {
    hide RecvOffer, UploadStream, PutsStream, MayOverwrite, Sha, RecvBlob;
    StoredRowsArePlain(h, contents, d);
    ClientIsPlain(h, contents, c);
    PlainNeverOverwrites(h, d, s, c);
  }

  lemma StoredRowsArePlain(h: Hash, contents: set<Bytes>, d: State)
    requires BlobsInOrder(h, contents, d)
    ensures PlainRows(d.rows)
  {
    forall r | r in d.rows
      ensures Plain(r.sha256)
    {
      assert StoredRow(h, contents, d.blobs, r);
      if r.kind == File {
        ShaIsFileName(h, d.outside, d.blobs[r.sha256]);
      }
    }
  }

  /** The repository's client announces hexadecimal digits only. */
  lemma ClientIsPlain(h: Hash, contents: set<Bytes>, c: Command)
    requires FromClient(contents, c)
    ensures PlainCommand(h, c)
  {
    hide RecvOffer, UploadStream, PutsStream, Sha, RecvBlob;
    if c.Upload? {
      UploadCases(h, c.filename, c.content, c.sent);
      ShaIsFileName(h, _ => None, c.content);
    }
  }

  // ----- the versions of a path -----

  function BlobsOf(d: State, rows: seq<Row>): (contents: seq<Option<Bytes>>)
    ensures |contents| == |rows|
    ensures forall i | 0 <= i < |rows| :: contents[i] == BlobNamed(d, rows[i].sha256)
  {
    if rows == [] then [] else BlobsOf(d, rows[..|rows| - 1]) + [BlobNamed(d, rows[|rows| - 1].sha256)]
  }

  /** The contents recorded under a path, oldest first. */
  function VersionsAt(d: State, userId: int, path: Bytes): seq<Option<Bytes>> {
    BlobsOf(d, Select(d.rows, FileAt(userId, path)))
  }

  /** A queue, and what a command does to the one of a given path. */
  datatype Change = Keep | Append(content: Option<Bytes>) | DropOldest

  function Apply(change: Change, queue: seq<Option<Bytes>>): seq<Option<Bytes>> {
    match change
    case Keep => queue
    case Append(content) => queue + [content]
    case DropOldest => if queue == [] then [] else queue[1..]
  }

  /** An upload that is recorded appends the blob that its hash names afterwards. */
  function ChangeAt(h: Hash, d: State, e: Event, userId: int, path: Bytes): Change {
    var s := e.session;
    if UserId(d, s.username) != userId || userId < 0 then Keep
    else
      match Inbound(h, e.command)
      case Some((filename, w)) =>
        var effect := Perform(h, d, s, e.command);
        var offer := RecvOffer(filename, w);
        if effect.ok && offer.Some? && Join(s.cwd, filename) == path then
          Append(BlobNamed(effect.state, offer.value.hash))
        else Keep
      case None =>
        if e.command.Rm? && Normalized(s.cwd, e.command.file, s.username) == path then DropOldest else Keep
  }

  /** The same with what the repository's client has uploaded. */
  function ContentChangeAt(h: Hash, d: State, e: Event, userId: int, path: Bytes): Change {
    var change := ChangeAt(h, d, e, userId, path);
    if change.Append? && e.command.Upload? then Append(Some(e.command.content)) else change
  }

  lemma SameBlobs(d: State, d': State, rows: seq<Row>)
    requires forall r | r in rows :: BlobNamed(d, r.sha256) == BlobNamed(d', r.sha256)
    ensures BlobsOf(d, rows) == BlobsOf(d', rows)
  {
  }

  /** A command that overwrites nothing leaves the blobs of the rows that are there as they are. */
  lemma BlobsOfRowsStay(h: Hash, d: State, s: Session, c: Command, rows: seq<Row>)
    requires forall r | r in rows :: r in d.rows
    requires !MayOverwrite(h, d, s, c)
    ensures BlobsOf(Perform(h, d, s, c).state, rows) == BlobsOf(d, rows)
  {
    hide Perform, MayOverwrite;
    var d' := Perform(h, d, s, c).state;
    C.UsersStay(h, d, s, c);
    forall r | r in rows
      ensures BlobNamed(d', r.sha256) == BlobNamed(d, r.sha256)
    {
      var file := FileOf(d.outside, r.sha256);
      if file.Some? {
        assert Named(d, file.value);
        NamedBlobsStay(h, d, s, c, file.value);
      }
    }
    SameBlobs(d', d, rows);
  }

  lemma BlobsOfAppend(d: State, rows: seq<Row>, r: Row)
    ensures BlobsOf(d, rows + [r]) == BlobsOf(d, rows) + [BlobNamed(d, r.sha256)]
  {
    assert (rows + [r])[..|rows|] == rows;
  }

  lemma BlobsOfTail(d: State, rows: seq<Row>)
    requires rows != []
    ensures BlobsOf(d, rows[1..]) == BlobsOf(d, rows)[1..]
  {
  }

  lemma DirectoryInsertKeepsFiles(d: State, row: Row, userId: int, path: Bytes)
    requires row.kind == Directory
    ensures Select(Insert(d, row).rows, FileAt(userId, path)) == Select(d.rows, FileAt(userId, path))
  {
    SelectAppend(d.rows, row.(id := d.nextId), FileAt(userId, path));
  }

  lemma MkdirKeepsFiles(d: State, s: Session, dir: Bytes, userId: int, path: Bytes)
    ensures Select(Disk.Mkdir(d, s, dir).state.rows, FileAt(userId, path)) == Select(d.rows, FileAt(userId, path))
  {
    hide Normalized, Insert, First;
    var target := Normalized(s.cwd, dir, s.username);
    var parent := First(d, DirectoryAt(UserId(d, s.username), ParentOf(target)));
    if parent.Some? {
      DirectoryInsertKeepsFiles(
        d, DirectoryRow(UserId(d, s.username), parent.value.id, target, NameOf(target)), userId, path);
    }
  }

  lemma RmdirKeepsFiles(d: State, s: Session, dir: Bytes, userId: int, path: Bytes)
    requires WellFormed(d)
    ensures Select(Disk.Rmdir(d, s, dir).state.rows, FileAt(userId, path)) == Select(d.rows, FileAt(userId, path))
  {
    hide WellFormed, Normalized, First;
    var q := DirectoryAt(UserId(d, s.username), Normalized(s.cwd, dir, s.username));
    if First(d, q).Some? {
      FoundRow(d, q);
      DeletedDirectoryKeepsFiles(d, First(d, q).value, FileAt(userId, path));
    }
  }

  /** Commands about directories leave the rows of files alone. */
  lemma DirectoryCommandsKeepFiles(h: Hash, d: State, s: Session, c: Command, userId: int, path: Bytes)
    requires WellFormed(d) && (c.Login? || c.Cd? || c.Mkdir? || c.Rmdir?)
    ensures Select(Perform(h, d, s, c).state.rows, FileAt(userId, path)) == Select(d.rows, FileAt(userId, path))
  {
    hide WellFormed, Disk.Mkdir, Disk.Rmdir, Insert, Normalized;
    match c
    case Login =>
      DirectoryInsertKeepsFiles(
        d, DirectoryRow(UserId(d, s.username), 0, RootOf(s.username), s.username), userId, path);
    case Cd(_) =>
    case Mkdir(dir) => MkdirKeepsFiles(d, s, dir, userId, path);
    case Rmdir(dir) => RmdirKeepsFiles(d, s, dir, userId, path);
  }

  lemma DeletedDirectoryKeepsFiles(d: State, row: Row, q: Query)
    requires WellFormed(d) && row in d.rows && row.kind == Directory && q.FileAt?
    ensures Select(Deleted(d.rows, row.userId, row.id), q) == Select(d.rows, q)
  {
    hide AllPlaced, Attached, OneRoot, UsersOk;
    SelectDeleted(d.rows, row.userId, row.id, q);
    forall r | r in Select(d.rows, q)
      ensures !(r.id == row.id && r.userId == row.userId)
    {
      assert r.id == row.id ==> r == row by {
        if r.id == row.id {
          IdsAreUnique(d.rows, d.nextId, r, row);
        }
      }
    }
    DeletedNothing(Select(d.rows, q), row.userId, row.id);
  }

  lemma RmDropsOldest(d: State, s: Session, file: Bytes, userId: int, path: Bytes)
    requires WellFormed(d)
    ensures var before := Select(d.rows, FileAt(userId, path));
            Select(Disk.Rm(d, s, file).state.rows, FileAt(userId, path))
            == if UserId(d, s.username) == userId && userId >= 0
                  && Normalized(s.cwd, file, s.username) == path && before != []
               then before[1..] else before
  {
    hide Normalized, AllPlaced, Attached, OneRoot, UsersOk;
    var q, target := FileAt(userId, path), FileAt(UserId(d, s.username), Normalized(s.cwd, file, s.username));
    var before := Select(d.rows, q);
    var found := First(d, target);
    if UserId(d, s.username) >= 0 && found.Some? {
      FoundRow(d, target);
      SelectDeleted(d.rows, found.value.userId, found.value.id, q);
      if q == target {
        SelectIncreases(d.rows, d.nextId, q);
        DeletedFirst(before, d.nextId);
      } else {
        forall r | r in before
          ensures !(r.id == found.value.id && r.userId == found.value.userId)
        {
          assert r.id == found.value.id ==> r == found.value by {
            if r.id == found.value.id {
              IdsAreUnique(d.rows, d.nextId, r, found.value);
            }
          }
        }
        DeletedNothing(before, found.value.userId, found.value.id);
      }
    }
  }

  /** The row of a recorded upload. */
  lemma PutsRows(d: State, s: Session, filename: Bytes, w: Bytes)
    ensures var e, offer := Disk.Puts(d, s, filename, w), RecvOffer(filename, w);
            if !e.ok then e.state.rows == d.rows
            else
              && offer.Some? && UserId(d, s.username) >= 0
              && var dirId := DirId(d, UserId(d, s.username), s.cwd);
                 var row := FileRow(UserId(d, s.username), if dirId < 0 then 0 else dirId, s.cwd, filename,
                                    offer.value.hash, offer.value.size);
                 e.state.rows == d.rows + [row.(id := d.nextId)]
  {
    hide RecvOffer, RecvBlob, First, DirId, FileOf;
  }

  lemma PutsAppends(h: Hash, d: State, s: Session, c: Command, userId: int, path: Bytes)
    requires Inbound(h, c).Some? && !MayOverwrite(h, d, s, c)
    ensures VersionsAt(Perform(h, d, s, c).state, userId, path)
         == Apply(ChangeAt(h, d, Event(s, c), userId, path), VersionsAt(d, userId, path))
  {
    hide Perform, Select, BlobsOf, RecvOffer, MayOverwrite, BlobNamed, DirId, Disk.Puts;
    var (filename, w) := Inbound(h, c).value;
    var d' := Perform(h, d, s, c).state;
    var before := Select(d.rows, FileAt(userId, path));
    PerformIsPuts(h, d, s, c);
    PutsRows(d, s, filename, w);
    BlobsOfRowsStay(h, d, s, c, before);
    if Perform(h, d, s, c).ok {
      var row := d'.rows[|d.rows|];
      SelectAppend(d.rows, row, FileAt(userId, path));
      BlobsOfAppend(d', before, row);
      assert before + [] == before;
    }
  }

  /** Every command acts on the versions of every path as on a queue, as long as it overwrites nothing:
      a recorded upload of whatever bytes appends the blob its hash names afterwards, `rm` drops the
      oldest, anything else - also by other users - changes nothing. */
  lemma StepIsQueueChange(h: Hash, d: State, e: Event, userId: int, path: Bytes)
    requires WellFormed(d) && !MayOverwrite(h, d, e.session, e.command)
    ensures VersionsAt(Step(h, d, e), userId, path)
         == Apply(ChangeAt(h, d, e, userId, path), VersionsAt(d, userId, path))
  {
    hide WellFormed, Select, BlobsOf, Perform, Normalized, MayOverwrite, RecvOffer, BlobNamed;
    var s, c := e.session, e.command;
    var before := Select(d.rows, FileAt(userId, path));
    BlobsOfRowsStay(h, d, s, c, before);
    match c
    case Puts(_, _) => PutsAppends(h, d, s, c, userId, path);
    case Upload(_, _, _) => PutsAppends(h, d, s, c, userId, path);
    case Rm(file) =>
      RmIsPerform(h, d, s, file);
      RmDropsOldest(d, s, file, userId, path);
      RmKeepsBlobs(d, s, file, userId, path);
    case _ => DirectoryCommandsKeepFiles(h, d, s, c, userId, path);
  }

  lemma RmKeepsBlobs(d: State, s: Session, file: Bytes, userId: int, path: Bytes)
    ensures var before := Select(d.rows, FileAt(userId, path));
            BlobsOf(Disk.Rm(d, s, file).state, before) == BlobsOf(d, before)
            && (before != [] ==> BlobsOf(Disk.Rm(d, s, file).state, before[1..]) == BlobsOf(d, before)[1..])
  {
    hide Select, Disk.Rm, BlobsOf;
    var before := Select(d.rows, FileAt(userId, path));
    SameBlobs(Disk.Rm(d, s, file).state, d, before);
    if before != [] {
      BlobsOfTail(Disk.Rm(d, s, file).state, before);
    }
  }

  /** What the client's uploads append is what they upload. */
  lemma ClientChangeIsContent(h: Hash, contents: set<Bytes>, d: State, e: Event, userId: int, path: Bytes)
    requires BlobsInOrder(h, contents, d) && CollisionFree(h, contents) && FromClient(contents, e.command)
    ensures ContentChangeAt(h, d, e, userId, path) == ChangeAt(h, d, e, userId, path)
  {
    hide Perform, Sha, CollisionFree, BlobsInOrder, Normalized, RecvOffer, RecvBlob, PutsStream;
    var s, c := e.session, e.command;
    if c.Upload? {
      UploadEffect(h, contents, d, s, c.filename, c.content, c.sent);
      UploadCases(h, c.filename, c.content, c.sent);
      ShaIsFileName(h, d.outside, c.content);
      C.UsersStay(h, d, s, c);
    }
  }

  lemma RmIsPerform(h: Hash, d: State, s: Session, file: Bytes)
    ensures Perform(h, d, s, Rm(file)) == Disk.Rm(d, s, file)
    ensures Disk.Rm(d, s, file).state.blobs == d.blobs
  {
  }

  function Replay(h: Hash, d: State, events: seq<Event>, userId: int, path: Bytes, queue: seq<Option<Bytes>>)
    : seq<Option<Bytes>>
    decreases |events|
  {
    if events == [] then queue
    else Replay(h, Step(h, d, events[0]), events[1..], userId, path,
                Apply(ChangeAt(h, d, events[0], userId, path), queue))
  }

  /** The disk refines a first-in first-out queue of blobs per user and path, over every run that
      overwrites nothing. */
  lemma {:induction false} RunRefinesQueues(h: Hash, d: State, events: seq<Event>, userId: int, path: Bytes)
    requires WellFormed(d) && NeverOverwrites(h, d, events)
    ensures VersionsAt(Run(h, d, events), userId, path)
         == Replay(h, d, events, userId, path, VersionsAt(d, userId, path))
    decreases |events|
  {
    hide WellFormed, Step, ChangeAt, Apply, VersionsAt, MayOverwrite;
    if events != [] {
      StepKeepsWellFormed(h, d, events[0]);
      StepIsQueueChange(h, d, events[0], userId, path);
      RunRefinesQueues(h, Step(h, d, events[0]), events[1..], userId, path);
    }
  }

  function ReplayContents(h: Hash, d: State, events: seq<Event>, userId: int, path: Bytes, queue: seq<Option<Bytes>>)
    : seq<Option<Bytes>>
    decreases |events|
  {
    if events == [] then queue
    else ReplayContents(h, Step(h, d, events[0]), events[1..], userId, path,
                        Apply(ContentChangeAt(h, d, events[0], userId, path), queue))
  }

  /** With the repository's client it is a queue of the uploaded contents. */
  lemma {:induction false} ClientRunRefinesQueues(
      h: Hash, contents: set<Bytes>, d: State, events: seq<Event>, userId: int, path: Bytes)
    requires WellFormed(d) && BlobsInOrder(h, contents, d)
    requires CollisionFree(h, contents) && AllFromClients(contents, events)
    ensures VersionsAt(Run(h, d, events), userId, path)
         == ReplayContents(h, d, events, userId, path, VersionsAt(d, userId, path))
    decreases |events|
  {
    hide WellFormed, BlobsInOrder, CollisionFree, Step, ChangeAt, ContentChangeAt, Apply, VersionsAt, MayOverwrite;
    if events != [] {
      StepKeepsWellFormed(h, d, events[0]);
      StepKeepsBlobs(h, contents, d, events[0]);
      ClientsNeverOverwrite(h, contents, d, events[0].session, events[0].command);
      StepIsQueueChange(h, d, events[0], userId, path);
      ClientChangeIsContent(h, contents, d, events[0], userId, path);
      ClientRunRefinesQueues(h, contents, Step(h, d, events[0]), events[1..], userId, path);
    }
  }

  /** A download serves the oldest version that has not been removed. */
  lemma DownloadServesOldest(d: State, s: Session, filename: Bytes)
    requires UserId(d, s.username) >= 0
    ensures var versions := VersionsAt(d, UserId(d, s.username), VirtualPath(s, filename));
            GetsSource(d, s, filename) == if versions == [] then None else versions[0]
  {
  }

  /** `rm` of the very path, by the same user. */
  predicate RemovesSource(d: State, s: Session, filename: Bytes, e: Event) {
    && e.command.Rm? && UserId(d, e.session.username) == UserId(d, s.username)
    && Normalized(e.session.cwd, e.command.file, e.session.username) == VirtualPath(s, filename)
  }

  /** What a download serves stays the same through every command of everybody - the same user's uploads
      to the same path included - but an `rm` of the path and an upload that overwrites. */
  lemma CommandKeepsSource(h: Hash, d: State, s: Session, filename: Bytes, e: Event)
    requires WellFormed(d) && !MayOverwrite(h, d, e.session, e.command)
    requires GetsSource(d, s, filename).Some? && !RemovesSource(d, s, filename, e)
    ensures GetsSource(Step(h, d, e), s, filename) == GetsSource(d, s, filename)
    ensures Step(h, d, e).users == d.users
  {
    hide WellFormed, MayOverwrite, VersionsAt, GetsSource, Perform, Normalized, VirtualPath;
    KnownUser(d, s, filename);
    C.UsersStay(h, d, e.session, e.command);
    StepIsQueueChange(h, d, e, UserId(d, s.username), VirtualPath(s, filename));
    DownloadServesOldest(d, s, filename);
    DownloadServesOldest(Step(h, d, e), s, filename);
  }

  lemma KnownUser(d: State, s: Session, filename: Bytes)
    requires GetsSource(d, s, filename).Some?
    ensures UserId(d, s.username) >= 0
  {
  }

  // ----- other users -----

  predicate OthersOnly(d: State, v: int, events: seq<Event>) {
    forall i | 0 <= i < |events| :: UserId(d, events[i].session.username) != v
  }

  /** What user `v` has: rows, and the blob each of them names. */
  function Holdings(d: State, v: int): (seq<Row>, seq<Option<Bytes>>) {
    (Select(d.rows, OwnedBy(v)), BlobsOf(d, Select(d.rows, OwnedBy(v))))
  }

  lemma StepKeepsOthersHoldings(h: Hash, d: State, e: Event, v: int)
    requires UserId(d, e.session.username) != v && !MayOverwrite(h, d, e.session, e.command)
    ensures Holdings(Step(h, d, e), v) == Holdings(d, v)
    ensures Step(h, d, e).users == d.users
  {
    hide Perform, Select, BlobsOf;
    C.OthersRowsUntouched(h, d, e.session, e.command, OwnedBy(v), v);
    C.UsersStay(h, d, e.session, e.command);
    BlobsOfRowsStay(h, d, e.session, e.command, Select(d.rows, OwnedBy(v)));
  }

  /** Non-interference: no sequence of commands of other users - uploads of arbitrary, even
      inconsistent, bytes included, as long as none overwrites a blob under another spelling - changes
      a user's rows or the blobs behind them. */
  lemma {:induction false} OthersDoNotInterfere(h: Hash, d: State, events: seq<Event>, v: int)
    requires OthersOnly(d, v, events) && NeverOverwrites(h, d, events)
    ensures Holdings(Run(h, d, events), v) == Holdings(d, v)
    ensures Run(h, d, events).users == d.users
    decreases |events|
  {
    hide Step, Holdings;
    if events != [] {
      StepKeepsOthersHoldings(h, d, events[0], v);
      OthersDoNotInterfere(h, Step(h, d, events[0]), events[1..], v);
    }
  }

  /** Queries about one user see only that user's rows. */
  lemma {:induction false} SelectFromOwned(rows: seq<Row>, q: Query, v: int)
    requires C.OfUser(q, v)
    ensures Select(Select(rows, OwnedBy(v)), q) == Select(rows, q)
  {
    if rows != [] {
      var init, last := rows[..|rows| - 1], rows[|rows| - 1];
      SelectFromOwned(init, q, v);
      SelectAppend(Select(init, OwnedBy(v)), last, q);
    }
  }

  /** A user's downloads and listings depend on the user's holdings only. */
  lemma HoldingsDecide(d: State, d': State, s: Session, filename: Bytes)
    requires d.users == d'.users
    requires Holdings(d, UserId(d, s.username)) == Holdings(d', UserId(d, s.username))
    ensures GetsSource(d, s, filename) == GetsSource(d', s, filename)
    ensures Listing(d, s) == Listing(d', s)
  {
    hide Select, BlobsOf;
    var v := UserId(d, s.username);
    var q := FileAt(v, VirtualPath(s, filename));
    SelectFromOwned(d.rows, q, v);
    SelectFromOwned(d'.rows, q, v);
    SelectFromOwned(d.rows, DirectoryAt(v, s.cwd), v);
    SelectFromOwned(d'.rows, DirectoryAt(v, s.cwd), v);
    var children := ChildrenOf(v, DirId(d, v, s.cwd));
    SelectFromOwned(d.rows, children, v);
    SelectFromOwned(d'.rows, children, v);
    if First(d, q).Some? {
      FoundRow(d, q);
      FoundRow(d', q);
      var r := First(d, q).value;
      var owned := Select(d.rows, OwnedBy(v));
      assert r in owned;
      var i :| 0 <= i < |owned| && owned[i] == r;
      assert BlobsOf(d, owned)[i] == BlobsOf(d', owned)[i];
    }
  }
}
