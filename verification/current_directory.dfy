/** Current directories, with one session per user. */
module CurrentDirectory {
  import opened Wire
  import opened Digest
  import opened Paths
  import opened Table
  import opened Disk
  import opened Runs
  import opened Tree
  import opened Walk
  import P = PutsExchange

  /** The disk and the current directory of every user who is logged in. */
  datatype World = World(disk: State, cwds: map<Bytes, Bytes>)

  datatype UserCommand = UserCommand(username: Bytes, command: Command)

  function SessionOf(w: World, username: Bytes): Session
    requires username in w.cwds
  {
    Session(username, w.cwds[username])
  }

  /** Registered users may log in; who is logged in may issue commands. */
  function WorldStep(h: Hash, w: World, e: UserCommand): World {
    if e.command.Login? then
      if e.username in w.disk.users then
        var effect := Disk.Login(w.disk, Session(e.username, []));
        World(effect.state, w.cwds[e.username := effect.cwd])
      else w
    else if e.username in w.cwds then
      var effect := Perform(h, w.disk, SessionOf(w, e.username), e.command);
      World(effect.state, w.cwds[e.username := effect.cwd])
    else w
  }

  function WorldRun(h: Hash, w: World, events: seq<UserCommand>): World
    decreases |events|
  {
    if events == [] then w else WorldRun(h, WorldStep(h, w, events[0]), events[1..])
  }

  /** The one exception: a user removing the own root directory, and not being refused. */
  predicate RemovesRoot(w: World, e: UserCommand) {
    && e.command.Rmdir? && e.username in w.cwds
    && Disk.Rmdir(w.disk, SessionOf(w, e.username), e.command.dir).ok
    && Normalized(w.cwds[e.username], e.command.dir, e.username) == RootOf(e.username)
  }

  predicate NeverRemovesRoot(h: Hash, w: World, events: seq<UserCommand>)
    decreases |events|
  {
    events == [] || (!RemovesRoot(w, events[0]) && NeverRemovesRoot(h, WorldStep(h, w, events[0]), events[1..]))
  }

  predicate Live(d: State, username: Bytes, dir: Bytes) {
    First(d, DirectoryAt(UserId(d, username), dir)) != None
  }

  ghost predicate NoTopFiles(rows: seq<Row>) {
    forall r | r in rows && r.kind == File :: r.parentId != 0
  }

  ghost predicate AllLive(w: World) {
    forall u | u in w.cwds :: u in w.disk.users && Live(w.disk, u, w.cwds[u])
  }

  ghost predicate InOrder(w: World) {
    && WellFormed(w.disk)
    && NoTopFiles(w.disk.rows)
    && AllLive(w)
  }

  // ----- what one user's command does not touch -----

  predicate OfUser(q: Query, userId: int) {
    match q
    case DirectoryAt(u, _) => u == userId
    case FileAt(u, _) => u == userId
    case ChildrenOf(u, _) => u == userId
    case WithHash(_) => false
    case OwnedBy(u) => u == userId
  }

  lemma InsertTouchesOwner(d: State, row: Row, q: Query, v: int)
    requires row.userId != v && OfUser(q, v)
    ensures Select(Insert(d, row).rows, q) == Select(d.rows, q)
  {
    SelectAppend(d.rows, row.(id := d.nextId), q);
  }

  lemma RemoveTouchesOwner(d: State, userId: int, id: int, q: Query, v: int)
    requires userId != v && OfUser(q, v)
    ensures Select(Remove(d, userId, id).rows, q) == Select(d.rows, q)
  {
    SelectDeleted(d.rows, userId, id, q);
    DeletedNothing(Select(d.rows, q), userId, id);
  }

  /** A command of one user changes no result of another user's queries. */
  lemma OthersRowsUntouched(h: Hash, d: State, s: Session, c: Command, q: Query, v: int)
    requires UserId(d, s.username) != v && OfUser(q, v)
    ensures Select(Perform(h, d, s, c).state.rows, q) == Select(d.rows, q)
  {
    hide Insert, Remove, Normalized, P.RecvOffer, P.RecvBlob, OfUser;
    var before, after := d, Perform(h, d, s, c).state;
    match c
    case Login => LoginUntouched(d, s, q, v);
    case Cd(_) =>
    case Mkdir(dir) => MkdirUntouched(d, s, dir, q, v);
    case Rmdir(dir) => RmdirUntouched(d, s, dir, q, v);
    case Rm(file) => RmUntouched(d, s, file, q, v);
    case Puts(filename, w) => PutsUntouched(d, s, filename, w, q, v);
    case Upload(filename, content, sent) =>
      PutsUntouched(d, s, filename, UploadStream(h, filename, content, sent), q, v);
  }

  lemma LoginUntouched(d: State, s: Session, q: Query, v: int)
    requires UserId(d, s.username) != v && OfUser(q, v)
    ensures Select(Disk.Login(d, s).state.rows, q) == Select(d.rows, q)
  {
    hide Insert, OfUser;
    InsertTouchesOwner(d, DirectoryRow(UserId(d, s.username), 0, RootOf(s.username), s.username), q, v);
  }

  lemma MkdirUntouched(d: State, s: Session, dir: Bytes, q: Query, v: int)
    requires UserId(d, s.username) != v && OfUser(q, v)
    ensures Select(Disk.Mkdir(d, s, dir).state.rows, q) == Select(d.rows, q)
  {
    hide Insert, OfUser, Normalized;
    var path := Normalized(s.cwd, dir, s.username);
    var userId := UserId(d, s.username);
    var parent := First(d, DirectoryAt(userId, ParentOf(path)));
    if parent.Some? {
      InsertTouchesOwner(d, DirectoryRow(userId, parent.value.id, path, NameOf(path)), q, v);
    }
  }

  lemma RmdirUntouched(d: State, s: Session, dir: Bytes, q: Query, v: int)
    requires UserId(d, s.username) != v && OfUser(q, v)
    ensures Select(Disk.Rmdir(d, s, dir).state.rows, q) == Select(d.rows, q)
  {
    hide Remove, OfUser, Normalized;
    var row := First(d, DirectoryAt(UserId(d, s.username), Normalized(s.cwd, dir, s.username)));
    if row.Some? {
      RemoveTouchesOwner(d, UserId(d, s.username), row.value.id, q, v);
    }
  }

  lemma RmUntouched(d: State, s: Session, file: Bytes, q: Query, v: int)
    requires UserId(d, s.username) != v && OfUser(q, v)
    ensures Select(Disk.Rm(d, s, file).state.rows, q) == Select(d.rows, q)
  {
    hide Remove, OfUser, Normalized;
    var row := First(d, FileAt(UserId(d, s.username), Normalized(s.cwd, file, s.username)));
    if row.Some? {
      RemoveTouchesOwner(d, UserId(d, s.username), row.value.id, q, v);
    }
  }

  lemma PutsUntouched(d: State, s: Session, filename: Bytes, w: Bytes, q: Query, v: int)
    requires UserId(d, s.username) != v && OfUser(q, v)
    ensures Select(Disk.Puts(d, s, filename, w).state.rows, q) == Select(d.rows, q)
  {
    hide Insert, OfUser, P.RecvOffer, P.RecvBlob;
    var offer := P.RecvOffer(filename, w);
    if offer.Some? {
      var userId := UserId(d, s.username);
      var dirId := DirId(d, userId, s.cwd);
      var row := FileRow(userId, if dirId < 0 then 0 else dirId, s.cwd, filename, offer.value.hash, offer.value.size);
      var blob := P.RecvBlob(offer.value.size, offer.value.rest);
      var file := FileOf(d.outside, offer.value.hash);
      var stored := if file == None then d else d.(blobs := d.blobs[file.value := blob.content]);
      InsertTouchesOwner(d, row, q, v);
      InsertTouchesOwner(stored, row, q, v);
    }
  }

  lemma UsersStay(h: Hash, d: State, s: Session, c: Command)
    ensures Perform(h, d, s, c).state.users == d.users
    ensures Perform(h, d, s, c).state.outside == d.outside
  {
    hide P.RecvOffer, P.RecvBlob, FileOf, First;
    hide Disk.Login, Disk.Cd, Disk.Mkdir, Disk.Rmdir, Disk.Rm;
  }

  // ----- one's own commands -----

  lemma InsertKeepsLive(d: State, row: Row, username: Bytes, dir: Bytes)
    requires Live(d, username, dir)
    ensures Live(Insert(d, row), username, dir)
  {
    SelectAppend(d.rows, row.(id := d.nextId), DirectoryAt(UserId(d, username), dir));
  }

  /** Removing a row leaves every directory live that has another path. */
  lemma RemoveKeepsLive(d: State, row: Row, username: Bytes, dir: Bytes)
    requires WellFormed(d) && row in d.rows && Live(d, username, dir)
    requires row.kind == File || row.path != dir
    ensures Live(Remove(d, row.userId, row.id), username, dir)
  {
    hide Attached, AllPlaced, OneRoot, UsersOk;
    var q := DirectoryAt(UserId(d, username), dir);
    var kept := First(d, q).value;
    FoundRow(d, q);
    if kept.id == row.id {
      IdsAreUnique(d.rows, d.nextId, kept, row);
    }
    SelectDeleted(d.rows, row.userId, row.id, q);
    assert kept in Deleted(Select(d.rows, q), row.userId, row.id);
  }

  /** A directory other than the root has a live parent. */
  lemma ParentIsLive(d: State, username: Bytes, row: Row)
    requires WellFormed(d) && row in d.rows && row.kind == Directory && row.userId == UserId(d, username)
    requires username in d.users && row.path != RootOf(username)
    ensures Live(d, username, ParentOf(row.path))
    ensures Select(d.rows, ChildrenOf(row.userId, row.id)) == [] ==>
              Live(Remove(d, row.userId, row.id), username, ParentOf(row.path))
  {
    hide Attached, OneRoot;
    assert Placed(d.users, d.rows, row);
    assert !IsRoot(d.users, row);
    var p :| p in d.rows && IsParent(p, row);
    DirectoryPathShape(d, p);
    SplitOfJoin(p.path, row.filename);
    assert p in Select(d.rows, DirectoryAt(UserId(d, username), p.path));
    RemoveKeepsLive(d, row, username, p.path);
  }

  lemma RootIsLiveAfterLogin(d: State, s: Session)
    requires WellFormed(d) && NoTopFiles(d.rows) && s.username in d.users
    ensures Live(Disk.Login(d, s).state, s.username, RootOf(s.username))
  {
    hide Attached, OneRoot;
    var userId := d.users[s.username];
    var top := Select(d.rows, ChildrenOf(userId, 0));
    if top == [] {
      SelectAppend(d.rows, DirectoryRow(userId, 0, RootOf(s.username), s.username).(id := d.nextId),
                   DirectoryAt(userId, RootOf(s.username)));
    } else {
      var r := top[0];
      assert r in top;
      assert Placed(d.users, d.rows, r);
      assert IsRoot(d.users, r);
      assert r in Select(d.rows, DirectoryAt(userId, RootOf(s.username)));
    }
  }

  lemma RefusedRmdir(d: State, s: Session, dir: Bytes)
    ensures !Disk.Rmdir(d, s, dir).ok ==> Disk.Rmdir(d, s, dir) == Effect(d, s.cwd, false)
  {
  }

  lemma RmdirKeepsLive(d: State, s: Session, dir: Bytes)
    requires WellFormed(d) && s.username in d.users && Live(d, s.username, s.cwd)
    requires Disk.Rmdir(d, s, dir).ok ==> Normalized(s.cwd, dir, s.username) != RootOf(s.username)
    ensures Live(Disk.Rmdir(d, s, dir).state, s.username, Disk.Rmdir(d, s, dir).cwd)
  {
    hide WellFormed, Normalized, Remove;
    var path := Normalized(s.cwd, dir, s.username);
    var q := DirectoryAt(UserId(d, s.username), path);
    RefusedRmdir(d, s, dir);
    if Disk.Rmdir(d, s, dir).ok {
      var row := First(d, q).value;
      FoundRow(d, q);
      if s.cwd == path {
        ParentIsLive(d, s.username, row);
      } else {
        RemoveKeepsLive(d, row, s.username, s.cwd);
      }
    }
  }

  lemma RmKeepsLive(d: State, s: Session, file: Bytes)
    requires WellFormed(d) && s.username in d.users && Live(d, s.username, s.cwd)
    ensures Live(Disk.Rm(d, s, file).state, s.username, Disk.Rm(d, s, file).cwd)
  {
    hide WellFormed, Normalized, Remove;
    var q := FileAt(UserId(d, s.username), Normalized(s.cwd, file, s.username));
    if First(d, q) != None {
      FoundRow(d, q);
      RemoveKeepsLive(d, First(d, q).value, s.username, s.cwd);
    }
  }

  lemma PutsKeepsLive(d: State, s: Session, filename: Bytes, w: Bytes)
    requires Live(d, s.username, s.cwd)
    ensures Live(Disk.Puts(d, s, filename, w).state, s.username, Disk.Puts(d, s, filename, w).cwd)
  {
    hide Insert, P.RecvOffer, P.RecvBlob;
    var offer := P.RecvOffer(filename, w);
    if offer.Some? {
      var userId := UserId(d, s.username);
      var dirId := DirId(d, userId, s.cwd);
      var row := FileRow(userId, if dirId < 0 then 0 else dirId, s.cwd, filename, offer.value.hash, offer.value.size);
      var blob := P.RecvBlob(offer.value.size, offer.value.rest);
      var file := FileOf(d.outside, offer.value.hash);
      var stored := if file == None then d else d.(blobs := d.blobs[file.value := blob.content]);
      InsertKeepsLive(d, row, s.username, s.cwd);
      InsertKeepsLive(stored, row, s.username, s.cwd);
    }
  }

  lemma MkdirKeepsLive(d: State, s: Session, dir: Bytes)
    requires Live(d, s.username, s.cwd)
    ensures Live(Disk.Mkdir(d, s, dir).state, s.username, s.cwd)
  {
    hide Insert, Normalized;
    var path := Normalized(s.cwd, dir, s.username);
    var userId := UserId(d, s.username);
    var parent := First(d, DirectoryAt(userId, ParentOf(path)));
    if parent.Some? {
      InsertKeepsLive(d, DirectoryRow(userId, parent.value.id, path, NameOf(path)), s.username, s.cwd);
    }
  }

  /** Whatever a session does short of removing its root, refused attempts included, its current
      directory is live. */
  lemma OwnCommandKeepsLive(h: Hash, d: State, s: Session, c: Command)
    requires WellFormed(d) && s.username in d.users && Live(d, s.username, s.cwd) && !c.Login?
    requires c.Rmdir? && Disk.Rmdir(d, s, c.dir).ok ==> Normalized(s.cwd, c.dir, s.username) != RootOf(s.username)
    ensures Live(Perform(h, d, s, c).state, s.username, Perform(h, d, s, c).cwd)
  {
    hide WellFormed, Live, Disk.Mkdir, Disk.Rmdir, Disk.Rm, Disk.Puts, Normalized;
    match c
    case Cd(dir) => CdKeepsLive(d, s, dir);
    case Mkdir(dir) => MkdirKeepsLive(d, s, dir); MkdirStays(d, s, dir);
    case Rmdir(dir) => RmdirKeepsLive(d, s, dir);
    case Rm(file) => RmKeepsLive(d, s, file);
    case Puts(filename, w) => PutsKeepsLive(d, s, filename, w);
    case Upload(filename, content, sent) => PutsKeepsLive(d, s, filename, UploadStream(h, filename, content, sent));
  }

  lemma MkdirStays(d: State, s: Session, dir: Bytes)
    ensures Disk.Mkdir(d, s, dir).cwd == s.cwd
  {
  }

  lemma CdKeepsLive(d: State, s: Session, dir: Bytes)
    requires Live(d, s.username, s.cwd)
    ensures Live(Disk.Cd(d, s, dir).state, s.username, Disk.Cd(d, s, dir).cwd)
  {
    hide Normalized, First;
  }

  // ----- files stay below directories -----

  lemma NoTopFilesAfter(h: Hash, d: State, s: Session, c: Command)
    requires WellFormed(d) && NoTopFiles(d.rows)
    requires !c.Login? ==> Live(d, s.username, s.cwd)
    ensures NoTopFiles(Perform(h, d, s, c).state.rows)
  {
    hide WellFormed, NoTopFiles, Live, Disk.Login, Disk.Cd, Disk.Mkdir, Disk.Rmdir, Disk.Rm, Disk.Puts;
    match c
    case Login => LoginKeepsNoTopFiles(d, s);
    case Cd(dir) => CdKeepsState(d, s, dir);
    case Mkdir(dir) => MkdirKeepsNoTopFiles(d, s, dir);
    case Rmdir(dir) => RemovalKeepsNoTopFiles(d, s, dir);
    case Rm(file) => RemovalKeepsNoTopFiles(d, s, file);
    case Puts(filename, w) => PutsBelow(d, s, filename, w);
    case Upload(filename, content, sent) => PutsBelow(d, s, filename, UploadStream(h, filename, content, sent));
  }

  lemma InsertKeepsNoTopFiles(d: State, row: Row)
    requires NoTopFiles(d.rows) && row.kind == Directory
    ensures NoTopFiles(Insert(d, row).rows)
  {
  }

  lemma LoginKeepsNoTopFiles(d: State, s: Session)
    requires NoTopFiles(d.rows)
    ensures NoTopFiles(Disk.Login(d, s).state.rows)
  {
    hide NoTopFiles, Insert;
    InsertKeepsNoTopFiles(d, DirectoryRow(UserId(d, s.username), 0, RootOf(s.username), s.username));
  }

  lemma MkdirKeepsNoTopFiles(d: State, s: Session, dir: Bytes)
    requires NoTopFiles(d.rows)
    ensures NoTopFiles(Disk.Mkdir(d, s, dir).state.rows)
  {
    hide NoTopFiles, Insert, Normalized, First, ParentOf, NameOf;
    var path := Normalized(s.cwd, dir, s.username);
    var parent := First(d, DirectoryAt(UserId(d, s.username), ParentOf(path)));
    if parent.Some? {
      InsertKeepsNoTopFiles(d, DirectoryRow(UserId(d, s.username), parent.value.id, path, NameOf(path)));
    }
  }

  lemma RemoveKeepsNoTopFiles(d: State, userId: int, id: int)
    requires NoTopFiles(d.rows)
    ensures NoTopFiles(Remove(d, userId, id).rows)
  {
  }

  lemma RemovalKeepsNoTopFiles(d: State, s: Session, name: Bytes)
    requires NoTopFiles(d.rows)
    ensures NoTopFiles(Disk.Rmdir(d, s, name).state.rows)
    ensures NoTopFiles(Disk.Rm(d, s, name).state.rows)
  {
    hide NoTopFiles, Remove, Normalized, Select;
    var path, userId := Normalized(s.cwd, name, s.username), UserId(d, s.username);
    var dir, file := First(d, DirectoryAt(userId, path)), First(d, FileAt(userId, path));
    if dir.Some? {
      RemoveKeepsNoTopFiles(d, userId, dir.value.id);
    }
    if file.Some? {
      RemoveKeepsNoTopFiles(d, userId, file.value.id);
    }
  }

  lemma PutsBelow(d: State, s: Session, filename: Bytes, w: Bytes)
    requires WellFormed(d) && NoTopFiles(d.rows) && Live(d, s.username, s.cwd)
    ensures NoTopFiles(Disk.Puts(d, s, filename, w).state.rows)
  {
    hide WellFormed, P.RecvOffer, P.RecvBlob, First;
    var q := DirectoryAt(UserId(d, s.username), s.cwd);
    FoundRow(d, q);
    RowIdsArePositive(d, First(d, q).value);
  }

  // ----- runs -----

  /** A registered user's login, the first or another, and a logged-in user's command: the disk is the one
      the command leaves, that user is where the command leads, all others stay where they are. */
  lemma WorldStepIs(h: Hash, w: World, e: UserCommand)
    ensures var w' := WorldStep(h, w, e);
            var registered, loggedIn := e.username in w.disk.users, e.username in w.cwds;
            if (if e.command.Login? then registered else loggedIn) then
              var session := Session(e.username, if loggedIn then w.cwds[e.username] else []);
              var effect := Perform(h, w.disk, session, e.command);
              && w'.disk == effect.state
              && e.username in w'.cwds && w'.cwds[e.username] == effect.cwd
              && (e.command.Login? ==> w'.cwds[e.username] == [47] + e.username)
              && (forall u | u != e.username :: u in w'.cwds <==> u in w.cwds)
              && (forall u | u != e.username && u in w.cwds :: w'.cwds[u] == w.cwds[u])
            else w' == w
  {
    hide Disk.Cd, Disk.Mkdir, Disk.Rmdir, Disk.Rm, Disk.Puts;
  }

  lemma WorldStepKeepsOrder(h: Hash, w: World, e: UserCommand)
    requires InOrder(w) && !RemovesRoot(w, e)
    ensures InOrder(WorldStep(h, w, e))
  {
    hide Perform, Live, WellFormed, NoTopFiles, Normalized, Disk.Login;
    if e.command.Login? && e.username in w.disk.users {
      var s := Session(e.username, []);
      LoginIsPerform(h, w.disk, s);
      CommandKeepsOrder(h, w, s, e.command);
      RootIsLiveAfterLogin(w.disk, s);
      LoginGoesToRoot(w.disk, s);
    } else if !e.command.Login? && e.username in w.cwds {
      CommandKeepsOrder(h, w, SessionOf(w, e.username), e.command);
      OwnCommandKeepsLive(h, w.disk, SessionOf(w, e.username), e.command);
    }
  }

  lemma LoginGoesToRoot(d: State, s: Session)
    ensures Disk.Login(d, s).cwd == RootOf(s.username)
  {
  }

  lemma LoginIsPerform(h: Hash, d: State, s: Session)
    ensures Perform(h, d, s, Login) == Disk.Login(d, s)
  {
  }

  /** Everything but the issuing user's own current directory. */
  lemma CommandKeepsOrder(h: Hash, w: World, s: Session, c: Command)
    requires InOrder(w) && s.username in w.disk.users
    requires !c.Login? ==> Live(w.disk, s.username, s.cwd)
    ensures var d := Perform(h, w.disk, s, c).state;
            && WellFormed(d) && NoTopFiles(d.rows) && d.users == w.disk.users
            && forall u | u in w.cwds && u != s.username :: Live(d, u, w.cwds[u])
  {
    hide Perform, WellFormed, NoTopFiles;
    var d := Perform(h, w.disk, s, c).state;
    StepIsPerform(h, w.disk, s, c);
    StepKeepsWellFormed(h, w.disk, Event(s, c));
    NoTopFilesAfter(h, w.disk, s, c);
    UsersStay(h, w.disk, s, c);
    forall u | u in w.cwds && u != s.username
      ensures Live(d, u, w.cwds[u])
    {
      DifferentIds(w.disk, u, s.username);
      var q := DirectoryAt(UserId(w.disk, u), w.cwds[u]);
      OthersRowsUntouched(h, w.disk, s, c, q, UserId(w.disk, u));
    }
  }

  lemma StepIsPerform(h: Hash, d: State, s: Session, c: Command)
    ensures Step(h, d, Event(s, c)) == Perform(h, d, s, c).state
  {
  }

  lemma DifferentIds(d: State, u: Bytes, v: Bytes)
    requires WellFormed(d) && u in d.users && v in d.users && u != v
    ensures UserId(d, u) != UserId(d, v)
  {
  }

  lemma {:induction false} WorldRunKeepsOrder(h: Hash, w: World, events: seq<UserCommand>)
    requires InOrder(w) && NeverRemovesRoot(h, w, events)
    ensures InOrder(WorldRun(h, w, events))
    decreases |events|
  {
    hide InOrder, WorldStep, RemovesRoot;
    if events != [] {
      WorldStepKeepsOrder(h, w, events[0]);
      WorldRunKeepsOrder(h, WorldStep(h, w, events[0]), events[1..]);
    }
  }

  /** A directory lies at or below its user's root. */
  lemma {:induction false} DirectoryIsBelowRoot(d: State, username: Bytes, r: Row)
    requires WellFormed(d) && username in d.users
    requires r in d.rows && r.kind == Directory && r.userId == d.users[username]
    ensures r.path == RootOf(username) || RootOf(username) + [SLASH] <= r.path
    decreases r.id
  {
    hide Attached, OneRoot;
    assert Placed(d.users, d.rows, r);
    if !IsRoot(d.users, r) {
      var p :| p in d.rows && IsParent(p, r);
      assert p.id >= 1;
      DirectoryIsBelowRoot(d, username, p);
      assert r.path == p.path + [SLASH] + r.filename;
      if p.path == RootOf(username) {
        assert r.path[..|p.path| + 1] == RootOf(username) + [SLASH];
      }
    }
  }

  /** With one session per user, and roots never removed, every current directory names a live
      directory at or below "/username", and `ls` there shows exactly the rows whose path is the
      current directory and their name. */
  lemma EveryoneIsConfined(
      h: Hash, users: map<Bytes, int>, outside: Outside, events: seq<UserCommand>, u: Bytes)
    requires UsersOk(users)
    requires NeverRemovesRoot(h, World(Initial(users, outside), map[]), events)
    requires u in WorldRun(h, World(Initial(users, outside), map[]), events).cwds
    ensures var w := WorldRun(h, World(Initial(users, outside), map[]), events);
            && Live(w.disk, u, w.cwds[u])
            && (w.cwds[u] == RootOf(u) || RootOf(u) + [SLASH] <= w.cwds[u])
            && Listing(w.disk, SessionOf(w, u)).Some?
            && forall r :: r in Listing(w.disk, SessionOf(w, u)).value
                      <==> r in w.disk.rows && r.userId == UserId(w.disk, u) && r.path == Join(w.cwds[u], r.filename)
  {
    hide WorldRun, NeverRemovesRoot, NoTopFiles, WellFormed;
    var start := World(Initial(users, outside), map[]);
    InitialInOrder(users, outside);
    WorldRunKeepsOrder(h, start, events);
    ConfinedInOrder(WorldRun(h, start, events), u);
  }

  lemma InitialInOrder(users: map<Bytes, int>, outside: Outside)
    requires UsersOk(users)
    ensures InOrder(World(Initial(users, outside), map[]))
  {
    assert WellFormed(Initial(users, outside));
  }

  lemma ConfinedInOrder(w: World, u: Bytes)
    requires InOrder(w) && u in w.cwds
    ensures Live(w.disk, u, w.cwds[u])
    ensures w.cwds[u] == RootOf(u) || RootOf(u) + [SLASH] <= w.cwds[u]
    ensures Listing(w.disk, SessionOf(w, u)).Some?
    ensures forall r :: r in Listing(w.disk, SessionOf(w, u)).value
                   <==> r in w.disk.rows && r.userId == UserId(w.disk, u) && r.path == Join(w.cwds[u], r.filename)
  {
    hide WellFormed;
    var s := SessionOf(w, u);
    var q := DirectoryAt(UserId(w.disk, u), w.cwds[u]);
    var dir := First(w.disk, q).value;
    FoundRow(w.disk, q);
    RowIdsArePositive(w.disk, dir);
    DirectoryIsBelowRoot(w.disk, u, dir);
    RegisteredUser(w.disk, u);
    forall r
      ensures r in Listing(w.disk, s).value
         <==> r in w.disk.rows && r.userId == UserId(w.disk, u) && r.path == Join(w.cwds[u], r.filename)
    {
      ListingIsByPath(w.disk, s, r);
      if r in w.disk.rows && r.path == Join(w.cwds[u], r.filename) {
        NotAtTop(w, r, w.cwds[u]);
      }
    }
  }

  lemma NotAtTop(w: World, r: Row, dir: Bytes)
    requires InOrder(w) && r in w.disk.rows && r.path == Join(dir, r.filename) && dir != []
    ensures r.parentId != 0
  {
    hide Attached, OneRoot;
    assert Placed(w.disk.users, w.disk.rows, r);
    assert forall p | p in w.disk.rows :: p.id >= 1;
    if r.kind == Directory && SLASH !in r.filename {
      NotARoot(w.disk.users, r, dir, r.filename);
    }
  }
}
