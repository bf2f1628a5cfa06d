/** The directory tree is stored twice, as parent ids and as path strings; both agree. */
module Tree {
  import opened Wire
  import opened Digest
  import opened Paths
  import opened Table
  import opened Disk
  import opened Runs
  import P = PutsExchange

  /** Registered users: a unique positive id each, and a name that is one path component. */
  ghost predicate UsersOk(users: map<Bytes, int>) {
    && (forall u | u in users :: u != [] && SLASH !in u && users[u] > 0)
    && (forall u, v | u in users && v in users && users[u] == users[v] :: u == v)
  }

  ghost predicate IsRoot(users: map<Bytes, int>, r: Row) {
    && r.kind == Directory && r.parentId == 0
    && exists u :: u in users && users[u] == r.userId && r.filename == u && r.path == RootOf(u)
  }

  predicate IsParent(p: Row, r: Row) {
    && p.kind == Directory && p.userId == r.userId && p.id == r.parentId && p.id < r.id
    && r.path == Join(p.path, r.filename)
  }

  ghost predicate HasParent(rows: seq<Row>, r: Row) {
    exists p {:trigger IsParent(p, r)} :: p in rows && IsParent(p, r)
  }

  /** A directory is a root or has a directory of the same user, with a smaller id, as its parent,
      and extends that parent's path by its own name. A file may also be at top level (an upload from
      a current directory that is gone). */
  ghost predicate Placed(users: map<Bytes, int>, rows: seq<Row>, r: Row) {
    match r.kind
    case Directory => IsRoot(users, r) || (HasParent(rows, r) && SLASH !in r.filename)
    case File => r.parentId == 0 || HasParent(rows, r)
  }

  ghost predicate AllPlaced(users: map<Bytes, int>, rows: seq<Row>) {
    forall r {:trigger Placed(users, rows, r)} | r in rows :: Placed(users, rows, r)
  }

  ghost predicate OneRoot(rows: seq<Row>) {
    forall r, q | r in rows && q in rows && r.kind == q.kind == Directory
                  && r.parentId == q.parentId == 0 && r.userId == q.userId :: r == q
  }

  predicate HoldsChild(p: Row, r: Row) {
    p.kind == Directory && p.userId == r.userId && p.id == r.parentId
  }

  /** Children hang below the first of the rows that share their directory's path. */
  ghost predicate Attached(rows: seq<Row>) {
    forall r, p {:trigger HoldsChild(p, r)} | r in rows && p in rows && HoldsChild(p, r) ::
      FirstOf(rows, DirectoryAt(p.userId, p.path)) == Some(p)
  }

  ghost predicate WellFormed(d: State) {
    && UsersOk(d.users)
    && IdsIncrease(d.rows, d.nextId)
    && AllPlaced(d.users, d.rows)
    && OneRoot(d.rows)
    && Attached(d.rows)
  }

  lemma RegisteredUser(d: State, username: Bytes)
    requires WellFormed(d) && username in d.users
    ensures SLASH !in username && username != [] && UserId(d, username) > 0
  {
  }

  // ----- one more row -----

  lemma InsertKeepsIds(rows: seq<Row>, nextId: int, r: Row)
    requires IdsIncrease(rows, nextId) && r.id == nextId
    ensures IdsIncrease(rows + [r], nextId + 1)
  {
  }

  lemma InsertKeepsPlaced(users: map<Bytes, int>, rows: seq<Row>, r: Row)
    requires AllPlaced(users, rows) && Placed(users, rows + [r], r)
    ensures AllPlaced(users, rows + [r])
  {
    forall q | q in rows + [r]
      ensures Placed(users, rows + [r], q)
    {
      assert q in rows ==> Placed(users, rows, q);
      if q in rows && HasParent(rows, q) {
        var p :| p in rows && IsParent(p, q);
        assert p in rows + [r];
      }
    }
  }

  /** No row hangs below an id that has not been given out. */
  lemma NoChildrenYet(users: map<Bytes, int>, rows: seq<Row>, nextId: int, r: Row)
    requires IdsIncrease(rows, nextId) && AllPlaced(users, rows) && r in rows
    ensures r.parentId < nextId
  {
    assert Placed(users, rows, r);
  }

  lemma InsertKeepsAttached(users: map<Bytes, int>, rows: seq<Row>, nextId: int, r: Row)
    requires IdsIncrease(rows, nextId) && AllPlaced(users, rows) && Attached(rows)
    requires r.id == nextId && r.parentId < nextId
    requires forall p | p in rows && HoldsChild(p, r) :: FirstOf(rows, DirectoryAt(p.userId, p.path)) == Some(p)
    ensures Attached(rows + [r])
  {
    hide AllPlaced, FirstOf;
    forall q, p | q in rows + [r] && p in rows + [r] && HoldsChild(p, q)
      ensures FirstOf(rows + [r], DirectoryAt(p.userId, p.path)) == Some(p)
    {
      ParentWasThere(users, rows, nextId, r, p, q);
      InsertKeepsFirst(rows, r, DirectoryAt(p.userId, p.path), p);
    }
  }

  lemma InsertKeepsFirst(rows: seq<Row>, r: Row, q: Query, p: Row)
    requires FirstOf(rows, q) == Some(p)
    ensures FirstOf(rows + [r], q) == Some(p)
  {
    SelectAppend(rows, r, q);
  }

  /** The new row is nobody's parent. */
  lemma ParentWasThere(users: map<Bytes, int>, rows: seq<Row>, nextId: int, r: Row, p: Row, q: Row)
    requires IdsIncrease(rows, nextId) && AllPlaced(users, rows) && r.id == nextId && r.parentId < nextId
    requires q in rows + [r] && p in rows + [r] && HoldsChild(p, q)
    ensures p in rows
  {
    hide AllPlaced;
    if q in rows {
      NoChildrenYet(users, rows, nextId, q);
    }
  }

  /** A row below the first directory row with path `dir` fits. */
  lemma InsertBelow(d: State, row: Row, dir: Bytes)
    requires WellFormed(d)
    requires First(d, DirectoryAt(row.userId, dir)) != None
    requires row.parentId == First(d, DirectoryAt(row.userId, dir)).value.id
    requires row.path == Join(dir, row.filename)
    requires row.kind == Directory ==> SLASH !in row.filename
    ensures WellFormed(Insert(d, row))
  {
    hide Attached, AllPlaced, Placed;
    var r := row.(id := d.nextId);
    var p := First(d, DirectoryAt(row.userId, dir)).value;
    assert p in Select(d.rows, DirectoryAt(row.userId, dir));
    InsertKeepsIds(d.rows, d.nextId, r);
    PlacedBelow(d.users, d.rows + [r], p, r);
    InsertKeepsPlaced(d.users, d.rows, r);
    forall q | q in d.rows && HoldsChild(q, r)
      ensures FirstOf(d.rows, DirectoryAt(q.userId, q.path)) == Some(q)
    {
      IdsAreUnique(d.rows, d.nextId, p, q);
    }
    InsertKeepsAttached(d.users, d.rows, d.nextId, r);
  }

  lemma PlacedBelow(users: map<Bytes, int>, rows: seq<Row>, p: Row, r: Row)
    requires p in rows && IsParent(p, r)
    requires r.kind == Directory ==> SLASH !in r.filename
    ensures Placed(users, rows, r)
  {
  }

  /** A file at top level fits anywhere. */
  lemma InsertTopFile(d: State, row: Row)
    requires WellFormed(d) && row.kind == File && row.parentId == 0
    ensures WellFormed(Insert(d, row))
  {
    hide Attached, AllPlaced;
    var r := row.(id := d.nextId);
    InsertKeepsIds(d.rows, d.nextId, r);
    InsertKeepsPlaced(d.users, d.rows, r);
    InsertKeepsAttached(d.users, d.rows, d.nextId, r);
  }

  lemma InsertRoot(d: State, username: Bytes)
    requires WellFormed(d) && username in d.users
    requires Select(d.rows, ChildrenOf(d.users[username], 0)) == []
    ensures WellFormed(Insert(d, DirectoryRow(d.users[username], 0, RootOf(username), username)))
  {
    hide Attached, AllPlaced;
    var userId := d.users[username];
    var r := DirectoryRow(userId, 0, RootOf(username), username).(id := d.nextId);
    InsertKeepsIds(d.rows, d.nextId, r);
    InsertKeepsPlaced(d.users, d.rows, r);
    InsertKeepsAttached(d.users, d.rows, d.nextId, r);
    forall q | q in d.rows && q.userId == userId
      ensures q.parentId != 0
    {
      assert Matches(ChildrenOf(userId, 0), q) ==> q in Select(d.rows, ChildrenOf(userId, 0));
    }
  }

  // ----- one row less -----

  ghost predicate Childless(rows: seq<Row>, userId: int, id: int) {
    forall r | r in rows :: !(r.userId == userId && r.parentId == id)
  }

  lemma DeleteKeepsPlaced(users: map<Bytes, int>, rows: seq<Row>, userId: int, id: int)
    requires AllPlaced(users, rows) && Childless(rows, userId, id)
    ensures AllPlaced(users, Deleted(rows, userId, id))
  {
    var left := Deleted(rows, userId, id);
    forall r | r in left
      ensures Placed(users, left, r)
    {
      assert Placed(users, rows, r);
      if HasParent(rows, r) {
        var p :| p in rows && IsParent(p, r);
        assert p in left;
      }
    }
  }

  lemma DeleteKeepsAttached(rows: seq<Row>, userId: int, id: int)
    requires Attached(rows)
    ensures Attached(Deleted(rows, userId, id))
  {
    hide FirstOf;
    var left := Deleted(rows, userId, id);
    forall r, p | r in left && p in left && HoldsChild(p, r)
      ensures FirstOf(left, DirectoryAt(p.userId, p.path)) == Some(p)
    {
      DeleteKeepsFirst(rows, userId, id, DirectoryAt(p.userId, p.path), p);
    }
  }

  lemma DeleteKeepsFirst(rows: seq<Row>, userId: int, id: int, q: Query, p: Row)
    requires FirstOf(rows, q) == Some(p) && !(p.id == id && p.userId == userId)
    ensures FirstOf(Deleted(rows, userId, id), q) == Some(p)
  {
    hide Select, Deleted;
    DeletedKeepsFirst(Select(rows, q), userId, id);
    SelectDeleted(rows, userId, id, q);
  }

  lemma RemoveKeepsWellFormed(d: State, userId: int, id: int)
    requires WellFormed(d) && Childless(d.rows, userId, id)
    ensures WellFormed(Remove(d, userId, id))
  {
    hide Attached, AllPlaced;
    DeletedIncreases(d.rows, d.nextId, userId, id);
    DeleteKeepsPlaced(d.users, d.rows, userId, id);
    DeleteKeepsAttached(d.rows, userId, id);
  }

  // ----- every command -----

  /** Directory paths start with a slash and have something behind it. */
  lemma {:induction false} DirectoryPathShape(d: State, r: Row)
    requires WellFormed(d) && r in d.rows && r.kind == Directory
    ensures |r.path| >= 2 && r.path[0] == SLASH
    decreases r.id
  {
    hide Attached;
    assert Placed(d.users, d.rows, r);
    if !IsRoot(d.users, r) {
      var p :| p in d.rows && IsParent(p, r);
      assert p.id >= 1;
      DirectoryPathShape(d, p);
    }
  }

  lemma FoundRow(d: State, q: Query)
    requires First(d, q) != None
    ensures First(d, q).value in d.rows && Matches(q, First(d, q).value)
  {
    assert First(d, q).value in Select(d.rows, q);
  }

  lemma MkdirKeepsWellFormed(d: State, s: Session, dir: Bytes)
    requires WellFormed(d)
    ensures WellFormed(Disk.Mkdir(d, s, dir).state)
  {
    hide WellFormed, Normalized, First;
    var path := Normalized(s.cwd, dir, s.username);
    var userId := UserId(d, s.username);
    var q := DirectoryAt(userId, ParentOf(path));
    if userId >= 0 && First(d, q) != None {
      var p := First(d, q).value;
      FoundRow(d, q);
      DirectoryPathShape(d, p);
      JoinOfSplit(path);
      InsertBelow(d, DirectoryRow(userId, p.id, path, NameOf(path)), ParentOf(path));
    }
  }

  lemma ChildlessIff(rows: seq<Row>, userId: int, id: int)
    ensures Select(rows, ChildrenOf(userId, id)) == [] <==> Childless(rows, userId, id)
  {
    forall r | r in rows && Select(rows, ChildrenOf(userId, id)) == []
      ensures !(r.userId == userId && r.parentId == id)
    {
      assert Matches(ChildrenOf(userId, id), r) ==> r in Select(rows, ChildrenOf(userId, id));
    }
    if Childless(rows, userId, id) {
      SelectNothing(rows, ChildrenOf(userId, id));
    }
  }

  lemma RmdirKeepsWellFormed(d: State, s: Session, dir: Bytes)
    requires WellFormed(d)
    ensures WellFormed(Disk.Rmdir(d, s, dir).state)
  {
    hide WellFormed, Normalized, First;
    var path := Normalized(s.cwd, dir, s.username);
    var userId := UserId(d, s.username);
    var q := DirectoryAt(userId, path);
    if userId >= 0 && First(d, q) != None {
      var row := First(d, q).value;
      if Select(d.rows, ChildrenOf(userId, row.id)) == [] {
        ChildlessIff(d.rows, userId, row.id);
        RemoveKeepsWellFormed(d, userId, row.id);
      }
    }
  }

  /** Nothing hangs below a file. */
  lemma FilesAreChildless(d: State, f: Row)
    requires WellFormed(d) && f in d.rows && f.kind == File
    ensures Childless(d.rows, f.userId, f.id)
  {
    hide Attached;
    forall r | r in d.rows && r.userId == f.userId && r.parentId == f.id
      ensures false
    {
      assert Placed(d.users, d.rows, r);
      assert f.id >= 1;
      var p :| p in d.rows && IsParent(p, r);
      IdsAreUnique(d.rows, d.nextId, p, f);
    }
  }

  lemma RmKeepsWellFormed(d: State, s: Session, file: Bytes)
    requires WellFormed(d)
    ensures WellFormed(Disk.Rm(d, s, file).state)
  {
    hide WellFormed, Normalized, First;
    var path := Normalized(s.cwd, file, s.username);
    var userId := UserId(d, s.username);
    var q := FileAt(userId, path);
    if userId >= 0 && First(d, q) != None {
      FoundRow(d, q);
      FilesAreChildless(d, First(d, q).value);
      RemoveKeepsWellFormed(d, userId, First(d, q).value.id);
    }
  }

  lemma LoginKeepsWellFormed(d: State, s: Session)
    requires WellFormed(d)
    ensures WellFormed(Disk.Login(d, s).state)
  {
    hide AllPlaced, Attached;
    if UserId(d, s.username) > 0 && Select(d.rows, ChildrenOf(UserId(d, s.username), 0)) == [] {
      InsertRoot(d, s.username);
    }
  }

  /** Recording an upload, whatever it says about hash and size. */
  lemma FileRowKeepsWellFormed(d: State, s: Session, filename: Bytes, hash: Bytes, size: int)
    requires WellFormed(d) && UserId(d, s.username) >= 0
    ensures var userId := UserId(d, s.username);
            var dirId := DirId(d, userId, s.cwd);
            WellFormed(Insert(d, FileRow(userId, if dirId < 0 then 0 else dirId, s.cwd, filename, hash, size)))
  {
    hide WellFormed, First;
    var userId := UserId(d, s.username);
    var dirId := DirId(d, userId, s.cwd);
    var q := DirectoryAt(userId, s.cwd);
    var row := FileRow(userId, if dirId < 0 then 0 else dirId, s.cwd, filename, hash, size);
    if First(d, q) != None {
      FoundRow(d, q);
      RowIdsArePositive(d, First(d, q).value);
      InsertBelow(d, row, s.cwd);
    } else {
      InsertTopFile(d, row);
    }
  }

  lemma RowIdsArePositive(d: State, r: Row)
    requires WellFormed(d) && r in d.rows
    ensures r.id >= 1
  {
  }

  lemma BlobsDoNotMatter(d: State, blobs: map<Bytes, Bytes>)
    requires WellFormed(d)
    ensures WellFormed(d.(blobs := blobs))
  {
  }

  lemma PutsKeepsWellFormed(d: State, s: Session, filename: Bytes, w: Bytes)
    requires WellFormed(d)
    ensures WellFormed(Disk.Puts(d, s, filename, w).state)
  {
    hide WellFormed, P.RecvOffer, P.RecvBlob;
    var offer := P.RecvOffer(filename, w);
    if offer.Some? && UserId(d, s.username) >= 0 {
      FileRowKeepsWellFormed(d, s, filename, offer.value.hash, offer.value.size);
      var blob := P.RecvBlob(offer.value.size, offer.value.rest);
      var file := FileOf(d.outside, offer.value.hash);
      var stored := if file == None then d else d.(blobs := d.blobs[file.value := blob.content]);
      BlobsDoNotMatter(d, stored.blobs);
      FileRowKeepsWellFormed(stored, s, filename, offer.value.hash, offer.value.size);
    }
  }

  lemma StepKeepsWellFormed(h: Hash, d: State, e: Event)
    requires WellFormed(d)
    ensures WellFormed(Step(h, d, e))
  {
    hide WellFormed, Disk.Login, Disk.Cd, Disk.Mkdir, Disk.Rmdir, Disk.Rm, Disk.Puts;
    var s := e.session;
    match e.command
    case Login => LoginKeepsWellFormed(d, s);
    case Cd(dir) => CdKeepsState(d, s, dir);
    case Mkdir(dir) => MkdirKeepsWellFormed(d, s, dir);
    case Rmdir(dir) => RmdirKeepsWellFormed(d, s, dir);
    case Rm(file) => RmKeepsWellFormed(d, s, file);
    case Puts(filename, inbound) => PutsKeepsWellFormed(d, s, filename, inbound);
    case Upload(filename, content, sent) =>
      PutsKeepsWellFormed(d, s, filename, UploadStream(h, filename, content, sent));
  }

  lemma CdKeepsState(d: State, s: Session, dir: Bytes)
    ensures Disk.Cd(d, s, dir).state == d
  {
  }

  /** Path column, parent ids, roots and attachment agree after every run. */
  lemma {:induction false} RunKeepsWellFormed(h: Hash, d: State, events: seq<Event>)
    requires WellFormed(d)
    ensures WellFormed(Run(h, d, events))
    decreases |events|
  {
    hide WellFormed, Step;
    if events != [] {
      StepKeepsWellFormed(h, d, events[0]);
      RunKeepsWellFormed(h, Step(h, d, events[0]), events[1..]);
    }
  }

  lemma ReachableIsWellFormed(h: Hash, users: map<Bytes, int>, outside: Outside, events: seq<Event>)
    requires UsersOk(users)
    ensures WellFormed(Run(h, Initial(users, outside), events))
  {
    assert WellFormed(Initial(users, outside));
    RunKeepsWellFormed(h, Initial(users, outside), events);
  }
}
