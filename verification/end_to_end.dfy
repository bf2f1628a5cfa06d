/** From one user's upload to the same user's download, with everybody at work in between. */
module EndToEnd {
  import opened Wire
  import opened Digest
  import opened GetsClient
  import opened GetsExchange
  import opened Paths
  import opened Table
  import opened Disk
  import opened Runs
  import opened Tree
  import opened Versions
  import C = CurrentDirectory
  import R = Resume

  /** Either a command of some session, also of the same user, or one attempt of the download, cut
      somewhere. */
  datatype Happening = Other(event: Event) | Try(cut: R.Cut)

  /** One attempt of `gets filename` against the disk as it is. */
  function Download(h: Hash, d: State, s: Session, filename: Bytes, file: Option<Bytes>, cut: R.Cut): GetsResult {
    match GetsSource(d, s, filename)
    case None => GetsOutcome(h, filename, file, [])
    case Some(content) => R.Attempt(h, filename, content, file, cut)
  }

  /** The disk and the local file after a sequence of happenings. */
  function Play(h: Hash, d: State, s: Session, filename: Bytes, file: Option<Bytes>, hs: seq<Happening>)
    : (State, Option<Bytes>)
    decreases |hs|
  {
    if hs == [] then (d, file)
    else
      match hs[0]
      case Other(e) => Play(h, Step(h, d, e), s, filename, file, hs[1..])
      case Try(cut) => Play(h, d, s, filename, Download(h, d, s, filename, file, cut).file, hs[1..])
  }

  /** No command is the same user's `rm` of the path, and none announces a hash with a slash. */
  predicate Harmless(h: Hash, d: State, s: Session, filename: Bytes, hs: seq<Happening>) {
    forall i | 0 <= i < |hs| ::
      hs[i].Other? ==> !RemovesSource(d, s, filename, hs[i].event) && PlainCommand(h, hs[i].event.command)
  }

  /** A table the server has, with slash-free hashes. */
  ghost predicate Proper(d: State) {
    WellFormed(d) && PlainRows(d.rows)
  }

  lemma SourceStays(h: Hash, d: State, s: Session, filename: Bytes, e: Event)
    requires Proper(d) && GetsSource(d, s, filename).Some?
    requires !RemovesSource(d, s, filename, e) && PlainCommand(h, e.command)
    ensures Proper(Step(h, d, e))
    ensures GetsSource(Step(h, d, e), s, filename) == GetsSource(d, s, filename)
    ensures Step(h, d, e).users == d.users
  {
    hide WellFormed, Perform, GetsSource, PlainRows, PlainCommand, MayOverwrite, RemovesSource;
    PlainNeverOverwrites(h, d, e.session, e.command);
    PerformKeepsPlain(h, d, e.session, e.command);
    StepKeepsWellFormed(h, d, e);
    CommandKeepsSource(h, d, s, filename, e);
  }

  lemma HarmlessAnywhere(h: Hash, d: State, d': State, s: Session, filename: Bytes, hs: seq<Happening>)
    requires Harmless(h, d, s, filename, hs) && d'.users == d.users
    ensures Harmless(h, d', s, filename, hs)
  {
    hide PlainCommand, Normalized;
  }

  lemma HarmlessRest(h: Hash, d: State, d': State, s: Session, filename: Bytes, hs: seq<Happening>)
    requires Harmless(h, d, s, filename, hs) && d'.users == d.users && hs != []
    ensures Harmless(h, d', s, filename, hs[1..])
  {
    hide PlainCommand, Normalized;
  }

  lemma {:induction false} PlayKeepsSource(
      h: Hash, d: State, s: Session, filename: Bytes, file: Option<Bytes>, hs: seq<Happening>, content: Bytes)
    requires GetsSource(d, s, filename) == Some(content)
    requires Sendable(filename, content) && R.Resumable(content, file) && Proper(d)
    requires Harmless(h, d, s, filename, hs)
    ensures var (d', file') := Play(h, d, s, filename, file, hs);
            GetsSource(d', s, filename) == Some(content) && R.Resumable(content, file')
    decreases |hs|
  {
    hide GetsSource, Step, R.Resumable, R.Attempt, Proper, PlainCommand, RemovesSource;
    if hs != [] {
      match hs[0]
      case Other(e) =>
        SourceStays(h, d, s, filename, e);
        HarmlessRest(h, d, Step(h, d, e), s, filename, hs);
        PlayKeepsSource(h, Step(h, d, e), s, filename, file, hs[1..], content);
      case Try(cut) =>
        R.AttemptKeepsResumable(h, filename, content, file, cut);
        HarmlessRest(h, d, d, s, filename, hs);
        PlayKeepsSource(h, d, s, filename, Download(h, d, s, filename, file, cut).file, hs[1..], content);
    }
  }

  /** After the happenings, an attempt reports success only with `content` in the local file, and an
      attempt that is not interrupted does report success if the content has less than 2^31 bytes. */
  predicate Served(h: Hash, d: State, s: Session, filename: Bytes, content: Bytes, hs: seq<Happening>, last: R.Cut) {
    var (d', file) := Play(h, d, s, filename, None, hs);
    var r := Download(h, d', s, filename, file, last);
    && R.Sound(h, content, r)
    && (R.Whole(h, filename, content, file, last) && FitsInt(|content|) ==> r.status == Success && r.rest == [])
  }

  /** However a download into a fresh file is interrupted, and whatever everybody does meanwhile - but
      the same user's `rm` of the path -: when an attempt reports success the local file holds the
      content that was served at the start, and an attempt that is not interrupted does report success
      below 2^31 bytes. */
  lemma DownloadAmongOthers(
      h: Hash, d: State, s: Session, filename: Bytes, content: Bytes, hs: seq<Happening>, last: R.Cut)
    requires GetsSource(d, s, filename) == Some(content) && Sendable(filename, content) && Proper(d)
    requires Harmless(h, d, s, filename, hs)
    ensures Served(h, d, s, filename, content, hs, last)
  {
    hide GetsSource, R.Resumable, R.Attempt, R.Sound, R.Whole;
    FreshIsResumable(content);
    PlayKeepsSource(h, d, s, filename, None, hs, content);
    var (d', file) := Play(h, d, s, filename, None, hs);
    R.AttemptKeepsResumable(h, filename, content, file, last);
    R.WholeAttemptSucceedsIff(h, filename, content, file, last);
  }

  lemma FreshIsResumable(content: Bytes)
    ensures R.Resumable(content, None)
  {
  }

  /** The version a download gets is the head of the queue the history of the path amounts to. */
  lemma DownloadGetsOldestVersion(
      h: Hash, contents: set<Bytes>, users: map<Bytes, int>, outside: Outside, history: seq<Event>,
      s: Session, filename: Bytes, hs: seq<Happening>, last: R.Cut)
    requires UsersOk(users) && CollisionFree(h, contents) && AllFromClients(contents, history)
    requires UserId(Initial(users, outside), s.username) >= 0 && SendableName(filename)
    requires Harmless(h, Initial(users, outside), s, filename, hs)
    ensures var d := Run(h, Initial(users, outside), history);
            var userId := UserId(Initial(users, outside), s.username);
            var queue := ReplayContents(h, Initial(users, outside), history, userId, VirtualPath(s, filename), []);
            queue != [] ==>
              queue[0].Some? && FitsInt(|queue[0].value|) && Served(h, d, s, filename, queue[0].value, hs, last)
  {
    hide ReplayContents, Run, VirtualPath, Served, GetsSource, VersionsAt, WellFormed, BlobsInOrder;
    hide Harmless, PlainRows;
    var start := Initial(users, outside);
    var userId := UserId(start, s.username);
    var path := VirtualPath(s, filename);
    StartInOrder(h, contents, users, outside, userId, path);
    ClientRunRefinesQueues(h, contents, start, history, userId, path);
    UsersStayInRun(h, start, history);
    var d := Run(h, start, history);
    DownloadServesOldest(d, s, filename);
    var queue := VersionsAt(d, userId, path);
    if queue != [] {
      ReachableBlobsInOrder(h, contents, users, outside, history);
      StoredRowsArePlain(h, contents, d);
      ReachableIsWellFormed(h, users, outside, history);
      HarmlessAnywhere(h, start, d, s, filename, hs);
      VersionsAreStored(h, contents, d, userId, path);
      DownloadAmongOthers(h, d, s, filename, queue[0].value, hs, last);
    }
  }

  /** Whatever has been recorded is there, and small enough to be served. */
  lemma VersionsAreStored(h: Hash, contents: set<Bytes>, d: State, userId: int, path: Bytes)
    requires BlobsInOrder(h, contents, d) && VersionsAt(d, userId, path) != []
    ensures VersionsAt(d, userId, path)[0].Some? && FitsInt(|VersionsAt(d, userId, path)[0].value|)
  {
    hide Sha;
    var r := Select(d.rows, FileAt(userId, path))[0];
    FoundRow(d, FileAt(userId, path));
    assert StoredRow(h, contents, d.blobs, r);
    ShaIsFileName(h, d.outside, d.blobs[r.sha256]);
  }

  lemma StartInOrder(
      h: Hash, contents: set<Bytes>, users: map<Bytes, int>, outside: Outside, userId: int, path: Bytes)
    requires UsersOk(users)
    ensures WellFormed(Initial(users, outside)) && BlobsInOrder(h, contents, Initial(users, outside))
    ensures VersionsAt(Initial(users, outside), userId, path) == []
  {
  }

  lemma {:induction false} UsersStayInRun(h: Hash, d: State, events: seq<Event>)
    ensures Run(h, d, events).users == d.users
    decreases |events|
  {
    hide Step;
    if events != [] {
      UsersStayInStep(h, d, events[0]);
      UsersStayInRun(h, Step(h, d, events[0]), events[1..]);
    }
  }

  lemma UsersStayInStep(h: Hash, d: State, e: Event)
    ensures Step(h, d, e).users == d.users
  {
    C.UsersStay(h, d, e.session, e.command);
  }

  /** If an upload into a path without live rows has been recorded - in full or as an instant
      transfer, whoever stored the blob first - then a download of that name into a fresh file yields
      exactly the uploaded bytes, through any interruptions and any commands of everybody but an `rm`
      of the path by the same user. */
  lemma UploadThenDownload(
      h: Hash, contents: set<Bytes>, users: map<Bytes, int>, outside: Outside, history: seq<Event>,
      s: Session, filename: Bytes, content: Bytes, sent: nat, hs: seq<Happening>, last: R.Cut)
    requires UsersOk(users) && CollisionFree(h, contents) && AllFromClients(contents, history)
    requires content in contents && Sendable(filename, content) && s.cwd != [SLASH]
    requires Harmless(h, Initial(users, outside), s, filename, hs)
    ensures var before := Run(h, Initial(users, outside), history);
            var upload := Perform(h, before, s, Upload(filename, content, sent));
            upload.ok && VersionsAt(before, UserId(before, s.username), Join(s.cwd, filename)) == [] ==>
              FitsInt(|content|) && Served(h, upload.state, s, filename, content, hs, last)
  {
    hide Run, Served, GetsSource, VersionsAt, BlobsInOrder, Perform, CollisionFree, UsersOk, WellFormed;
    hide Harmless, PlainRows;
    var before := Run(h, Initial(users, outside), history);
    ReachableBlobsInOrder(h, contents, users, outside, history);
    UsersStayInRun(h, Initial(users, outside), history);
    var upload := Upload(filename, content, sent);
    var after := Perform(h, before, s, upload).state;
    C.UsersStay(h, before, s, upload);
    if Perform(h, before, s, upload).ok
       && VersionsAt(before, UserId(before, s.username), Join(s.cwd, filename)) == [] {
      UploadEffect(h, contents, before, s, filename, content, sent);
      StoredRowsArePlain(h, contents, after);
      ReachableIsWellFormed(h, users, outside, history);
      StepKeepsWellFormed(h, before, Event(s, upload));
      HarmlessAnywhere(h, Initial(users, outside), after, s, filename, hs);
      RecordedUploadAppends(h, contents, before, s, filename, content, sent);
      DownloadServesOldest(after, s, filename);
      DownloadAmongOthers(h, after, s, filename, content, hs, last);
    }
  }

  lemma RecordedUploadAppends(
      h: Hash, contents: set<Bytes>, d: State, s: Session, filename: Bytes, content: Bytes, sent: nat)
    requires BlobsInOrder(h, contents, d) && CollisionFree(h, contents)
    requires content in contents && Sendable(filename, content)
    ensures var userId, path := UserId(d, s.username), Join(s.cwd, filename);
            Perform(h, d, s, Upload(filename, content, sent)).ok ==>
              && userId >= 0
              && VersionsAt(Perform(h, d, s, Upload(filename, content, sent)).state, userId, path)
                 == VersionsAt(d, userId, path) + [Some(content)]
  {
    hide Perform, VersionsAt, BlobsInOrder, CollisionFree, ChangeAt, ContentChangeAt, MayOverwrite;
    var c := Upload(filename, content, sent);
    ClientsNeverOverwrite(h, contents, d, s, c);
    PutsAppends(h, d, s, c, UserId(d, s.username), Join(s.cwd, filename));
    ClientChangeIsContent(h, contents, d, Event(s, c), UserId(d, s.username), Join(s.cwd, filename));
    RecordedChange(h, d, s, c);
  }

  lemma RecordedChange(h: Hash, d: State, s: Session, c: Command)
    requires c.Upload?
    ensures Perform(h, d, s, c).ok ==>
              && UserId(d, s.username) >= 0
              && ContentChangeAt(h, d, Event(s, c), UserId(d, s.username), Join(s.cwd, c.filename))
                 == Append(Some(c.content))
  {
    hide Perform, Disk.Puts, UploadStream, BlobNamed, DirId;
    PerformIsPuts(h, d, s, c);
    PutsRows(d, s, c.filename, UploadStream(h, c.filename, c.content, c.sent));
  }

  // ----- what happens -----

  function EventsIn(hs: seq<Happening>): seq<Event> {
    if hs == [] then []
    else
      match hs[0]
      case Other(e) => [e] + EventsIn(hs[1..])
      case Try(_) => EventsIn(hs[1..])
  }

  /** The disk goes through the other commands, one after the other, whatever the download does. */
  lemma {:induction false} PlayRunsTheOthers(
      h: Hash, d: State, s: Session, filename: Bytes, file: Option<Bytes>, hs: seq<Happening>)
    ensures Play(h, d, s, filename, file, hs).0 == Run(h, d, EventsIn(hs))
    decreases |hs|
  {
    hide Step, Download;
    if hs != [] {
      match hs[0]
      case Other(e) =>
        assert ([e] + EventsIn(hs[1..]))[1..] == EventsIn(hs[1..]);
        PlayRunsTheOthers(h, Step(h, d, e), s, filename, file, hs[1..]);
      case Try(cut) =>
        PlayRunsTheOthers(h, d, s, filename, Download(h, d, s, filename, file, cut).file, hs[1..]);
    }
  }

  function CutsIn(hs: seq<Happening>): seq<R.Cut> {
    if hs == [] then []
    else
      match hs[0]
      case Other(_) => CutsIn(hs[1..])
      case Try(cut) => [cut] + CutsIn(hs[1..])
  }

  /** And the local file goes through the attempts, one after the other, at the content served. */
  lemma {:induction false} PlayMakesTheAttempts(
      h: Hash, d: State, s: Session, filename: Bytes, file: Option<Bytes>, hs: seq<Happening>, content: Bytes)
    requires Proper(d) && GetsSource(d, s, filename) == Some(content) && Harmless(h, d, s, filename, hs)
    ensures Play(h, d, s, filename, file, hs).1 == R.AfterAttempts(h, filename, content, file, CutsIn(hs))
    decreases |hs|
  {
    hide GetsSource, Step, R.Attempt, Proper, PlainCommand, RemovesSource;
    if hs != [] {
      match hs[0]
      case Other(e) =>
        SourceStays(h, d, s, filename, e);
        HarmlessRest(h, d, Step(h, d, e), s, filename, hs);
        PlayMakesTheAttempts(h, Step(h, d, e), s, filename, file, hs[1..], content);
      case Try(cut) =>
        assert ([cut] + CutsIn(hs[1..]))[1..] == CutsIn(hs[1..]);
        HarmlessRest(h, d, d, s, filename, hs);
        PlayMakesTheAttempts(h, d, s, filename, R.Attempt(h, filename, content, file, cut).file, hs[1..], content);
    }
  }
}
