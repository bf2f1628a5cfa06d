/** What every command does, in terms of the rows of the table: when it succeeds, which row comes or
    goes, and that a refused one changes nothing. */
module Commands {
  import opened Wire
  import opened Digest
  import opened Paths
  import opened Table
  import opened Disk
  import opened Tree
  import P = PutsExchange

  /** Of the rows of a user, a kind and a path, the one with the lowest id. */
  ghost predicate Oldest(d: State, userId: int, kind: Kind, path: Bytes, r: Row) {
    && r in d.rows && r.userId == userId && r.kind == kind && r.path == path
    && forall q | q in d.rows && q.userId == userId && q.kind == kind && q.path == path :: r.id <= q.id
  }

  ghost predicate IsThere(d: State, userId: int, kind: Kind, path: Bytes) {
    exists r :: r in d.rows && r.userId == userId && r.kind == kind && r.path == path
  }

  /** Just this row has gone. */
  ghost predicate Dropped(before: seq<Row>, r: Row, after: seq<Row>) {
    exists i :: 0 <= i < |before| && before[i] == r && after == before[..i] + before[i + 1..]
  }

  function At(userId: int, kind: Kind, path: Bytes): Query {
    if kind == Directory then DirectoryAt(userId, path) else FileAt(userId, path)
  }

  lemma FirstIsOldest(d: State, userId: int, kind: Kind, path: Bytes)
    requires WellFormed(d)
    ensures First(d, At(userId, kind, path)) == None <==> !IsThere(d, userId, kind, path)
    ensures forall r :: First(d, At(userId, kind, path)) == Some(r) <==> Oldest(d, userId, kind, path, r)
  {
    hide AllPlaced, Attached, OneRoot, UsersOk;
    var q := At(userId, kind, path);
    forall r | r in d.rows && Matches(q, r)
      ensures First(d, q) != None && First(d, q).value.id <= r.id
    {
      FirstHasLowestId(d.rows, d.nextId, q, r);
    }
    if First(d, q) != None {
      FoundRow(d, q);
      var first := First(d, q).value;
      assert Oldest(d, userId, kind, path, first);
      forall r | Oldest(d, userId, kind, path, r)
        ensures r == first
      {
        IdsAreUnique(d.rows, d.nextId, r, first);
      }
    }
  }

  lemma RemoveDrops(d: State, r: Row)
    requires WellFormed(d) && r in d.rows
    ensures Dropped(d.rows, r, Remove(d, r.userId, r.id).rows)
  {
    hide AllPlaced, Attached, OneRoot, UsersOk;
    var i :| 0 <= i < |d.rows| && d.rows[i] == r;
    DeletedOne(d.rows, d.nextId, i);
  }

  // ----- rmdir -----

  /** The directory at the path, the oldest if there are several, has no rows below it. */
  ghost predicate Removable(d: State, userId: int, path: Bytes, r: Row) {
    Oldest(d, userId, Directory, path, r) && Childless(d.rows, userId, r.id)
  }

  /** Only the row `r` has gone, and from a removed current directory the session is in its parent. */
  ghost predicate DirectoryRemoved(d: State, s: Session, path: Bytes, r: Row, e: Effect) {
    && Dropped(d.rows, r, e.state.rows) && e.state == d.(rows := e.state.rows)
    && (s.cwd != path ==> e.cwd == s.cwd)
    && (s.cwd == path ==> if r.parentId == 0 then e.cwd == [47] else path == e.cwd + [47] + r.filename)
  }

  /** `rmdir` succeeds exactly for a directory that is there and empty, the current one or not. */
  lemma RmdirOutcome(d: State, s: Session, dir: Bytes)
    requires WellFormed(d) && s.username in d.users
    ensures var userId, path := d.users[s.username], Normalized(s.cwd, dir, s.username);
            && (Rmdir(d, s, dir).ok <==> exists r :: Removable(d, userId, path, r))
            && (forall r | Removable(d, userId, path, r) :: DirectoryRemoved(d, s, path, r, Rmdir(d, s, dir)))
            && (!Rmdir(d, s, dir).ok ==> Rmdir(d, s, dir) == Effect(d, s.cwd, false))
  {
    hide WellFormed, Normalized, First, Select, Oldest, IsThere, Remove, ParentOf, Dropped;
    var userId, path := d.users[s.username], Normalized(s.cwd, dir, s.username);
    RegisteredUser(d, s.username);
    FirstIsOldest(d, userId, Directory, path);
    if First(d, DirectoryAt(userId, path)).Some? {
      var r := First(d, DirectoryAt(userId, path)).value;
      FoundRow(d, DirectoryAt(userId, path));
      ChildlessIff(d.rows, userId, r.id);
      assert Oldest(d, userId, Directory, path, r);
      if Rmdir(d, s, dir).ok {
        assert Removable(d, userId, path, r);
        RemoveDrops(d, r);
        RemoveChangesRows(d, r.userId, r.id);
        ParentOfDirectory(d, r);
      }
    }
  }

  lemma RemoveChangesRows(d: State, userId: int, id: int)
    ensures Remove(d, userId, id) == d.(rows := Remove(d, userId, id).rows)
  {
  }

  lemma ParentOfDirectory(d: State, r: Row)
    requires WellFormed(d) && r in d.rows && r.kind == Directory
    ensures if r.parentId == 0 then ParentOf(r.path) == [47] else r.path == ParentOf(r.path) + [47] + r.filename
  {
    hide Attached, OneRoot, ParentOf, NameOf;
    assert Placed(d.users, d.rows, r);
    if r.parentId == 0 {
      assert forall p | p in d.rows :: p.id >= 1;
      assert IsRoot(d.users, r);
      assert r.path == Join([], r.filename);
      SplitOfJoin([], r.filename);
    } else {
      assert !IsRoot(d.users, r);
      var p :| p in d.rows && IsParent(p, r);
      DirectoryPathShape(d, p);
      SplitOfJoin(p.path, r.filename);
    }
  }

  // ----- mkdir -----

  /** `path` is one name below the directory `p`. */
  ghost predicate IsBelow(d: State, userId: int, p: Row, name: Bytes, path: Bytes) {
    Oldest(d, userId, Directory, p.path, p) && 47 !in name && path == p.path + [47] + name
  }

  /** One row has come, a directory below `p`. */
  ghost predicate DirectoryMade(d: State, s: Session, userId: int, p: Row, name: Bytes, path: Bytes, e: Effect) {
    && e.state == d.(rows := d.rows + [Row(d.nextId, name, userId, p.id, path, Directory, [], 0)],
                     nextId := d.nextId + 1)
    && e.cwd == s.cwd
  }

  /** `mkdir` succeeds exactly if the parent directory is there, whether or not the path is there
      already. */
  lemma MkdirOutcome(d: State, s: Session, dir: Bytes)
    requires WellFormed(d) && s.username in d.users
    ensures var userId, path := d.users[s.username], Normalized(s.cwd, dir, s.username);
            && (Mkdir(d, s, dir).ok <==> exists p, name :: IsBelow(d, userId, p, name, path))
            && (forall p, name | IsBelow(d, userId, p, name, path) ::
                  DirectoryMade(d, s, userId, p, name, path, Mkdir(d, s, dir)))
            && (!Mkdir(d, s, dir).ok ==> Mkdir(d, s, dir) == Effect(d, s.cwd, false))
  {
    hide WellFormed, Normalized, First, Oldest, IsThere, ParentOf, NameOf;
    var userId, path := d.users[s.username], Normalized(s.cwd, dir, s.username);
    RegisteredUser(d, s.username);
    FirstIsOldest(d, userId, Directory, ParentOf(path));
    if First(d, DirectoryAt(userId, ParentOf(path))).Some? {
      var p := First(d, DirectoryAt(userId, ParentOf(path))).value;
      FoundRow(d, DirectoryAt(userId, ParentOf(path)));
      DirectoryPathShape(d, p);
      ParentHasSlash(path);
      JoinOfSplit(path);
      assert IsBelow(d, userId, p, NameOf(path), path);
    }
    forall p, name | IsBelow(d, userId, p, name, path)
      ensures First(d, DirectoryAt(userId, ParentOf(path))) == Some(p) && name == NameOf(path)
    {
      IsAmongRows(d, userId, p);
      DirectoryPathShape(d, p);
      SplitOfJoin(p.path, name);
      assert path == Join(p.path, name);
      FirstIsOldest(d, userId, Directory, p.path);
    }
  }

  lemma IsAmongRows(d: State, userId: int, p: Row)
    requires Oldest(d, userId, Directory, p.path, p)
    ensures p in d.rows && p.kind == Directory
  {
  }

  lemma ParentHasSlash(path: Bytes)
    requires |ParentOf(path)| >= 2 && ParentOf(path)[0] == SLASH
    ensures LastSlash(path) > 0
  {
  }

  // ----- rm, cd, login -----

  /** `rm` succeeds exactly if there is a file at the path, and removes the oldest row of it. */
  lemma RmOutcome(d: State, s: Session, file: Bytes)
    requires WellFormed(d) && s.username in d.users
    ensures var userId, path := d.users[s.username], Normalized(s.cwd, file, s.username);
            && (Rm(d, s, file).ok <==> IsThere(d, userId, File, path))
            && (forall r | Oldest(d, userId, File, path, r) ::
                  && Dropped(d.rows, r, Rm(d, s, file).state.rows)
                  && Rm(d, s, file).state == d.(rows := Rm(d, s, file).state.rows)
                  && Rm(d, s, file).cwd == s.cwd)
            && (!Rm(d, s, file).ok ==> Rm(d, s, file) == Effect(d, s.cwd, false))
  {
    hide WellFormed, Normalized, First, Select, Oldest, IsThere, Remove, Dropped;
    var userId, path := d.users[s.username], Normalized(s.cwd, file, s.username);
    RegisteredUser(d, s.username);
    FirstIsOldest(d, userId, File, path);
    if First(d, FileAt(userId, path)).Some? {
      var r := First(d, FileAt(userId, path)).value;
      FoundRow(d, FileAt(userId, path));
      RemoveDrops(d, r);
      RemoveChangesRows(d, r.userId, r.id);
    }
  }

  /** `cd` succeeds exactly if the directory is there, and changes nothing but the current directory. */
  lemma CdOutcome(d: State, s: Session, dir: Bytes)
    requires WellFormed(d) && s.username in d.users
    ensures var userId, path := d.users[s.username], Normalized(s.cwd, dir, s.username);
            && (Cd(d, s, dir).ok <==> IsThere(d, userId, Directory, path))
            && Cd(d, s, dir).state == d
            && Cd(d, s, dir).cwd == if Cd(d, s, dir).ok then path else s.cwd
  {
    hide WellFormed, Normalized, First, IsThere, Oldest;
    RegisteredUser(d, s.username);
    FirstIsOldest(d, d.users[s.username], Directory, Normalized(s.cwd, dir, s.username));
  }

  /** "cd", "cd ~" and "cd /" lead to the root from everywhere; "cd ." stays. */
  lemma CdHome(d: State, s: Session)
    requires WellFormed(d) && s.username in d.users
    requires IsThere(d, d.users[s.username], Directory, [47] + s.username)
    ensures Cd(d, s, [126]) == Cd(d, s, []) == Cd(d, s, [47]) == Effect(d, [47] + s.username, true)
    ensures IsThere(d, d.users[s.username], Directory, s.cwd) && !EndsInSlash(s.cwd) ==>
              Cd(d, s, [46]) == Effect(d, s.cwd, true)
  {
    hide WellFormed, Normalized, Cd, IsThere;
    RegisteredUser(d, s.username);
    SpecialArguments(s.cwd, s.username);
    CdOutcome(d, s, [126]);
    CdOutcome(d, s, []);
    CdOutcome(d, s, [47]);
    CdOutcome(d, s, [46]);
  }

  /** A login leads to the root, and puts a root row into the table exactly if the user has no row at
      top level. */
  lemma LoginOutcome(d: State, s: Session)
    requires WellFormed(d) && s.username in d.users
    ensures var userId, e := d.users[s.username], Login(d, s);
            && e.ok && e.cwd == [47] + s.username
            && if !Childless(d.rows, userId, 0) then e.state == d
               else e.state == d.(rows := d.rows + [Row(d.nextId, s.username, userId, 0, [47] + s.username,
                                                        Directory, [], 0)],
                                  nextId := d.nextId + 1)
  {
    hide WellFormed, Select;
    RegisteredUser(d, s.username);
    ChildlessIff(d.rows, d.users[s.username], 0);
  }

  /** Users who are not registered get nothing done. */
  lemma StrangersAreRefused(d: State, s: Session, name: Bytes, w: Bytes)
    requires s.username !in d.users
    ensures Cd(d, s, name) == Mkdir(d, s, name) == Rmdir(d, s, name) == Rm(d, s, name)
         == Puts(d, s, name, w) == Effect(d, s.cwd, false)
    ensures Login(d, s).state == d && GetsSource(d, s, name) == None && Listing(d, s) == None
  {
  }

  // ----- ls and gets -----

  /** `ls` shows something exactly if the current directory is there: the rows below the oldest
      directory of that path, in the order of their ids. */
  lemma ListingOutcome(d: State, s: Session)
    requires WellFormed(d) && s.username in d.users
    ensures var userId := d.users[s.username];
            && (Listing(d, s).Some? <==> IsThere(d, userId, Directory, s.cwd))
            && forall dir | Oldest(d, userId, Directory, s.cwd, dir) ::
                 && (forall r :: r in Listing(d, s).value
                          <==> r in d.rows && r.userId == userId && r.parentId == dir.id)
                 && forall i, j | 0 <= i < j < |Listing(d, s).value| ::
                      Listing(d, s).value[i].id < Listing(d, s).value[j].id
  {
    hide WellFormed, First, Oldest, IsThere;
    var userId := d.users[s.username];
    RegisteredUser(d, s.username);
    FirstIsOldest(d, userId, Directory, s.cwd);
    if First(d, DirectoryAt(userId, s.cwd)).Some? {
      var dir := First(d, DirectoryAt(userId, s.cwd)).value;
      FoundRow(d, DirectoryAt(userId, s.cwd));
      RowIdsArePositive(d, dir);
      ResultIncreases(d, ChildrenOf(userId, dir.id));
    }
  }

  lemma ResultIncreases(d: State, q: Query)
    requires WellFormed(d)
    ensures forall i, j | 0 <= i < j < |Select(d.rows, q)| :: Select(d.rows, q)[i].id < Select(d.rows, q)[j].id
  {
    hide AllPlaced, Attached, OneRoot, UsersOk;
    SelectIncreases(d.rows, d.nextId, q);
  }

  /** `gets` serves the blob that the oldest file row at the path names. The path is the current
      directory and the name, but "/name" in the directory "/". */
  lemma GetsOutcome(d: State, s: Session, filename: Bytes, r: Row)
    requires WellFormed(d) && s.username in d.users
    ensures var userId := d.users[s.username];
            var path := if s.cwd == [47] then [47] + filename else s.cwd + [47] + filename;
            && (!IsThere(d, userId, File, path) ==> GetsSource(d, s, filename) == None)
            && (Oldest(d, userId, File, path, r) ==> GetsSource(d, s, filename) == BlobNamed(d, r.sha256))
            && (r.sha256 in d.blobs && IsFileName(r.sha256) ==> BlobNamed(d, r.sha256) == Some(d.blobs[r.sha256]))
  {
    hide WellFormed, First, Oldest, IsThere;
    RegisteredUser(d, s.username);
    FirstIsOldest(d, d.users[s.username], File, VirtualPath(s, filename));
  }

  // ----- puts -----

  /** An upload whose size and hash have been understood. It is recorded at once if some row, of whatever
      user, has the hash; otherwise if the blob can be opened and is received to the end, and the blob
      starts out empty. What is recorded is one row, below the oldest row of the current directory, or
      at top level if that is gone. */
  lemma PutsOutcome(d: State, s: Session, filename: Bytes, w: Bytes, offer: P.Offer)
    requires WellFormed(d) && s.username in d.users && P.RecvOffer(filename, w) == Some(offer)
    ensures var userId, e := d.users[s.username], Puts(d, s, filename, w);
            var file, blob := FileOf(d.outside, offer.hash), P.RecvBlob(offer.size, offer.rest);
            var known := exists q :: q in d.rows && q.sha256 == offer.hash;
            && (e.ok <==> known || (file.Some? && blob.complete))
            && e.cwd == s.cwd
            && e.state.blobs == (if known || file.None? then d.blobs else d.blobs[file.value := blob.content])
            && e.state == d.(rows := e.state.rows, nextId := e.state.nextId, blobs := e.state.blobs)
            && (!e.ok ==> e.state.rows == d.rows && e.state.nextId == d.nextId)
            && (e.ok ==>
                  && e.state.nextId == d.nextId + 1
                  && exists parentId ::
                       && (if IsThere(d, userId, Directory, s.cwd)
                           then exists p :: Oldest(d, userId, Directory, s.cwd, p) && p.id == parentId
                           else parentId == 0)
                       && e.state.rows
                          == d.rows + [Row(d.nextId, filename, userId, parentId, s.cwd + [47] + filename, File,
                                           offer.hash, offer.size)])
  {
    hide WellFormed, First, Oldest, IsThere, P.RecvOffer, P.RecvBlob, FileOf;
    var userId := d.users[s.username];
    RegisteredUser(d, s.username);
    FirstIsOldest(d, userId, Directory, s.cwd);
    KnownIff(d, offer.hash);
    DirIdIsOldest(d, userId, s.cwd);
  }

  lemma KnownIff(d: State, sha256: Bytes)
    ensures First(d, WithHash(sha256)).Some? <==> exists q :: q in d.rows && q.sha256 == sha256
  {
    if exists q :: q in d.rows && q.sha256 == sha256 {
      var q :| q in d.rows && q.sha256 == sha256;
      assert q in Select(d.rows, WithHash(sha256));
    } else {
      SelectNothing(d.rows, WithHash(sha256));
    }
  }

  lemma DirIdIsOldest(d: State, userId: int, dir: Bytes)
    requires WellFormed(d)
    ensures DirId(d, userId, dir) < 0 <==> !IsThere(d, userId, Directory, dir)
    ensures IsThere(d, userId, Directory, dir) ==>
              exists p :: Oldest(d, userId, Directory, dir, p) && p.id == DirId(d, userId, dir)
  {
    hide WellFormed, First, Oldest, IsThere;
    FirstIsOldest(d, userId, Directory, dir);
    if First(d, DirectoryAt(userId, dir)).Some? {
      FoundRow(d, DirectoryAt(userId, dir));
      RowIdsArePositive(d, First(d, DirectoryAt(userId, dir)).value);
    }
  }
}
