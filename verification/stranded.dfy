/** The one command that leaves the tree: removing one's own root. */
module Stranded {
  import opened Wire
  import opened Digest
  import opened Paths
  import opened Table
  import opened Disk
  import opened Runs
  import opened Tree
  import opened Walk
  import P = PutsExchange
  import C = CurrentDirectory

  ghost predicate Rootless(rows: seq<Row>, userId: int) {
    forall r | r in rows && r.kind == Directory && r.userId == userId :: r.parentId != 0
  }

  // ----- without a root there is no directory -----

  lemma {:induction false} NoRootNoDirectories(d: State, userId: int, r: Row)
    requires WellFormed(d) && Rootless(d.rows, userId)
    requires r in d.rows && r.kind == Directory
    ensures r.userId != userId
    decreases r.id
  {
    hide Attached, OneRoot;
    assert Placed(d.users, d.rows, r);
    if r.userId == userId {
      assert !IsRoot(d.users, r);
      var p :| p in d.rows && IsParent(p, r);
      assert p.id >= 1;
      NoRootNoDirectories(d, userId, p);
      assert false;
    }
  }

  lemma NoDirectoryFound(d: State, userId: int, path: Bytes)
    requires WellFormed(d) && Rootless(d.rows, userId)
    ensures First(d, DirectoryAt(userId, path)) == None
  {
    hide WellFormed, Rootless;
    var q := DirectoryAt(userId, path);
    if First(d, q) != None {
      FoundRow(d, q);
      NoRootNoDirectories(d, userId, First(d, q).value);
      assert false;
    }
  }

  lemma NowhereToGo(d: State, s: Session, path: Bytes)
    requires WellFormed(d) && Rootless(d.rows, UserId(d, s.username))
    ensures !Disk.Cd(d, s, path).ok && !Disk.Mkdir(d, s, path).ok
  {
    hide Normalized, WellFormed, Rootless, First, ParentOf;
    var target := Normalized(s.cwd, path, s.username);
    NoDirectoryFound(d, UserId(d, s.username), target);
    NoDirectoryFound(d, UserId(d, s.username), ParentOf(target));
  }

  // ----- what a command keeps -----

  lemma OnlyRootRemoved(d: State, root: Row)
    requires WellFormed(d) && root in d.rows && root.kind == Directory && root.parentId == 0
    ensures Rootless(Remove(d, root.userId, root.id).rows, root.userId)
  {
    hide AllPlaced, Attached, UsersOk;
  }

  lemma RemovingTheRoot(d: State, s: Session, dir: Bytes)
    requires WellFormed(d) && s.username in d.users
    requires Normalized(s.cwd, dir, s.username) == RootOf(s.username)
    requires Disk.Rmdir(d, s, dir).ok
    ensures Rootless(Disk.Rmdir(d, s, dir).state.rows, UserId(d, s.username))
    ensures s.cwd == RootOf(s.username) ==> Disk.Rmdir(d, s, dir).cwd == [SLASH]
  {
    hide Normalized, WellFormed, First, Rootless, Deleted, Select;
    var q := DirectoryAt(UserId(d, s.username), RootOf(s.username));
    var root := First(d, q).value;
    RegisteredUser(d, s.username);
    FoundRow(d, q);
    TopLevel(d, root, s.username);
    SplitOfJoin([], s.username);
    assert RootOf(s.username) == Join([], s.username);
    OnlyRootRemoved(d, root);
  }

  lemma InsertKeepsRootless(d: State, row: Row, userId: int)
    requires Rootless(d.rows, userId) && (row.kind == File || row.userId != userId)
    ensures Rootless(Insert(d, row).rows, userId)
  {
  }

  lemma RemoveKeepsRootless(d: State, owner: int, id: int, userId: int)
    requires Rootless(d.rows, userId)
    ensures Rootless(Remove(d, owner, id).rows, userId)
  {
  }

  lemma MkdirKeepsRootless(d: State, s: Session, dir: Bytes, userId: int)
    requires WellFormed(d) && Rootless(d.rows, userId)
    ensures Rootless(Disk.Mkdir(d, s, dir).state.rows, userId)
  {
    hide Normalized, WellFormed, Rootless, First, ParentOf, NameOf, Insert;
    var path, owner := Normalized(s.cwd, dir, s.username), UserId(d, s.username);
    if owner == userId {
      NoDirectoryFound(d, owner, ParentOf(path));
    } else if First(d, DirectoryAt(owner, ParentOf(path))).Some? {
      var parent := First(d, DirectoryAt(owner, ParentOf(path))).value;
      InsertKeepsRootless(d, DirectoryRow(owner, parent.id, path, NameOf(path)), userId);
    }
  }

  lemma RemovalKeepsRootless(d: State, s: Session, name: Bytes, userId: int)
    requires Rootless(d.rows, userId)
    ensures Rootless(Disk.Rmdir(d, s, name).state.rows, userId)
    ensures Rootless(Disk.Rm(d, s, name).state.rows, userId)
  {
    hide Normalized, Rootless, Remove, Select;
    var path, owner := Normalized(s.cwd, name, s.username), UserId(d, s.username);
    var dir, file := First(d, DirectoryAt(owner, path)), First(d, FileAt(owner, path));
    if dir.Some? {
      RemoveKeepsRootless(d, owner, dir.value.id, userId);
    }
    if file.Some? {
      RemoveKeepsRootless(d, owner, file.value.id, userId);
    }
  }

  lemma PutsKeepsRootless(d: State, s: Session, filename: Bytes, w: Bytes, userId: int)
    requires Rootless(d.rows, userId)
    ensures Rootless(Disk.Puts(d, s, filename, w).state.rows, userId)
  {
    hide P.RecvOffer, P.RecvBlob, First, FileOf;
  }

  lemma LoginKeepsRootless(d: State, s: Session, userId: int)
    requires Rootless(d.rows, userId) && UserId(d, s.username) != userId
    ensures Rootless(Disk.Login(d, s).state.rows, userId)
  {
    InsertKeepsRootless(
      d, DirectoryRow(UserId(d, s.username), 0, RootOf(s.username), s.username), userId);
  }

  predicate LogsIn(d: State, e: Event, userId: int) {
    e.command.Login? && UserId(d, e.session.username) == userId
  }

  lemma StepKeepsRootless(h: Hash, d: State, e: Event, userId: int)
    requires WellFormed(d) && Rootless(d.rows, userId) && !LogsIn(d, e, userId)
    ensures Rootless(Step(h, d, e).rows, userId)
    ensures Step(h, d, e).users == d.users
  {
    hide WellFormed, Rootless, Disk.Login, Disk.Cd, Disk.Mkdir, Disk.Rmdir, Disk.Rm, Disk.Puts;
    var s := e.session;
    C.UsersStay(h, d, s, e.command);
    match e.command
    case Login => LoginKeepsRootless(d, s, userId);
    case Cd(dir) => CdKeepsState(d, s, dir);
    case Mkdir(dir) => MkdirKeepsRootless(d, s, dir, userId);
    case Rmdir(dir) => RemovalKeepsRootless(d, s, dir, userId);
    case Rm(file) => RemovalKeepsRootless(d, s, file, userId);
    case Puts(filename, inbound) => PutsKeepsRootless(d, s, filename, inbound, userId);
    case Upload(filename, content, sent) =>
      PutsKeepsRootless(d, s, filename, UploadStream(h, filename, content, sent), userId);
  }

  // ----- until the next login -----

  predicate NoLogin(d: State, events: seq<Event>, userId: int) {
    forall i | 0 <= i < |events| :: !LogsIn(d, events[i], userId)
  }

  lemma {:induction false} RunKeepsRootless(h: Hash, d: State, events: seq<Event>, userId: int)
    requires WellFormed(d) && Rootless(d.rows, userId) && NoLogin(d, events, userId)
    ensures Rootless(Run(h, d, events).rows, userId) && WellFormed(Run(h, d, events))
    ensures Run(h, d, events).users == d.users
    decreases |events|
  {
    hide WellFormed, Rootless, Step;
    if events != [] {
      StepKeepsWellFormed(h, d, events[0]);
      StepKeepsRootless(h, d, events[0], userId);
      RunKeepsRootless(h, Step(h, d, events[0]), events[1..], userId);
    }
  }

  /** The exception to confinement: `rmdir` of one's own empty root succeeds, from the root itself it
      leads to "/", and whatever everybody does before that user logs in again, every `cd` and every
      `mkdir` of that user fails, in any session. */
  lemma RemovingTheRootStrands(h: Hash, d: State, s: Session, dir: Bytes, events: seq<Event>, cwd: Bytes, path: Bytes)
    requires WellFormed(d) && s.username in d.users
    requires Normalized(s.cwd, dir, s.username) == RootOf(s.username)
    requires Disk.Rmdir(d, s, dir).ok
    requires NoLogin(d, events, UserId(d, s.username))
    ensures s.cwd == RootOf(s.username) ==> Disk.Rmdir(d, s, dir).cwd == [SLASH]
    ensures var later := Run(h, Disk.Rmdir(d, s, dir).state, events);
            !Disk.Cd(later, s.(cwd := cwd), path).ok && !Disk.Mkdir(later, s.(cwd := cwd), path).ok
  {
    hide WellFormed, Rootless, Disk.Rmdir, Disk.Cd, Disk.Mkdir, Normalized;
    RemovingTheRoot(d, s, dir);
    RmdirKeepsWellFormed(d, s, dir);
    RunKeepsRootless(h, Disk.Rmdir(d, s, dir).state, events, UserId(d, s.username));
    NowhereToGo(Run(h, Disk.Rmdir(d, s, dir).state, events), s.(cwd := cwd), path);
  }

  /** The next login makes the root live again exactly if the user has nothing at top level then. */
  lemma LoginRestoresIff(d: State, s: Session)
    requires WellFormed(d) && s.username in d.users && Rootless(d.rows, UserId(d, s.username))
    ensures First(Disk.Login(d, s).state, DirectoryAt(UserId(d, s.username), RootOf(s.username))) != None
       <==> Select(d.rows, ChildrenOf(UserId(d, s.username), 0)) == []
  {
    hide WellFormed, Rootless;
    var userId := UserId(d, s.username);
    RegisteredUser(d, s.username);
    if Select(d.rows, ChildrenOf(userId, 0)) == [] {
      SelectAppend(d.rows, DirectoryRow(userId, 0, RootOf(s.username), s.username).(id := d.nextId),
                   DirectoryAt(userId, RootOf(s.username)));
    } else {
      NoDirectoryFound(d, userId, RootOf(s.username));
    }
  }

  /** And an upload that is recorded in the meantime is put at top level. */
  lemma StrandedUploadBlocksLogin(d: State, s: Session, filename: Bytes, w: Bytes)
    requires WellFormed(d) && Rootless(d.rows, UserId(d, s.username))
    ensures Disk.Puts(d, s, filename, w).ok ==>
              Select(Disk.Puts(d, s, filename, w).state.rows, ChildrenOf(UserId(d, s.username), 0)) != []
  {
    hide WellFormed, Rootless, P.RecvOffer, P.RecvBlob, First, FileOf, Select;
    var userId := UserId(d, s.username);
    NoDirectoryFound(d, userId, s.cwd);
    var offer := P.RecvOffer(filename, w);
    if offer.Some? {
      var row := FileRow(userId, 0, s.cwd, filename, offer.value.hash, offer.value.size);
      SelectAppend(d.rows, row.(id := d.nextId), ChildrenOf(userId, 0));
    }
  }
}
