/** What the path column means: the names along the parent ids, and the result of walking down. */
module Walk {
  import opened Wire
  import opened Paths
  import opened Table
  import opened Disk
  import opened Tree

  /** "/a/b/c" for the names a, b, c. */
  function PathOf(names: seq<Bytes>): Bytes {
    if names == [] then [] else Join(PathOf(names[..|names| - 1]), names[|names| - 1])
  }

  predicate SlashFree(names: seq<Bytes>) {
    forall i | 0 <= i < |names| :: SLASH !in names[i]
  }

  lemma PathOfAppend(names: seq<Bytes>, name: Bytes)
    ensures PathOf(names + [name]) == Join(PathOf(names), name)
  {
    assert (names + [name])[..|names|] == names;
  }

  /** The row an id link leads to is the parent in every other respect as well. */
  lemma LinkIsParent(d: State, p: Row, r: Row)
    requires WellFormed(d) && p in d.rows && r in d.rows && HoldsChild(p, r)
    ensures IsParent(p, r)
  {
    hide Attached;
    assert Placed(d.users, d.rows, r);
    assert p.id >= 1;
    var q :| q in d.rows && IsParent(q, r);
    IdsAreUnique(d.rows, d.nextId, p, q);
  }

  lemma HasLink(d: State, r: Row)
    requires WellFormed(d) && r in d.rows && r.parentId != 0
    ensures exists p :: p in d.rows && IsParent(p, r)
  {
    hide Attached, OneRoot, UsersOk, IdsIncrease;
    assert Placed(d.users, d.rows, r);
  }

  /** The names met on the way up the parent ids, read downwards. */
  ghost function ChainNames(d: State, r: Row): seq<Bytes>
    requires WellFormed(d) && r in d.rows && r.kind == Directory
    decreases r.id
  {
    if r.parentId == 0 then [r.filename]
    else
      HasLink(d, r);
      var p :| p in d.rows && IsParent(p, r);
      assert p.id >= 1;
      ChainNames(d, p) + [r.filename]
  }

  /** The path column is the names along the parent chain, each behind a slash; the chain starts at
      the user's own name. */
  lemma {:induction false} PathIsChain(d: State, r: Row)
    requires WellFormed(d) && r in d.rows && r.kind == Directory
    ensures r.path == PathOf(ChainNames(d, r))
    ensures SlashFree(ChainNames(d, r)) && ChainNames(d, r) != []
    ensures ChainNames(d, r)[0] in d.users && d.users[ChainNames(d, r)[0]] == r.userId
    decreases r.id
  {
    hide Attached, OneRoot;
    assert Placed(d.users, d.rows, r);
    if r.parentId == 0 {
      assert forall p | p in d.rows :: p.id >= 1;
      assert IsRoot(d.users, r);
      assert PathOf([r.filename]) == Join([], r.filename);
    } else {
      HasLink(d, r);
      var p :| p in d.rows && IsParent(p, r) && ChainNames(d, r) == ChainNames(d, p) + [r.filename];
      PathIsChain(d, p);
      PathOfAppend(ChainNames(d, p), r.filename);
    }
  }

  /** The directories reached from the top level by following children name by name; several, if a
      directory was created twice. */
  ghost function WalkDown(d: State, userId: int, names: seq<Bytes>): set<Row> {
    if names == [] then {}
    else
      var init, last := names[..|names| - 1], names[|names| - 1];
      set r | r in d.rows && r.kind == Directory && r.userId == userId && r.filename == last
              && if init == [] then r.parentId == 0
                 else exists p :: p in WalkDown(d, userId, init) && p.id == r.parentId
  }

  /** A path of one name is a root's. */
  lemma TopLevel(d: State, r: Row, name: Bytes)
    requires WellFormed(d) && r in d.rows && r.kind == Directory && SLASH !in name
    ensures r.path == Join([], name) <==> r.parentId == 0 && r.filename == name
  {
    hide Attached, OneRoot;
    assert Placed(d.users, d.rows, r);
    if r.parentId == 0 {
      assert forall p | p in d.rows :: p.id >= 1;
      assert r.path == Join([], r.filename);
      if r.path == Join([], name) {
        assert r.path[1..] == r.filename == name;
      }
    } else {
      var p :| p in d.rows && IsParent(p, r);
      DirectoryPathShape(d, p);
      SplitOfJoin(p.path, r.filename);
      SplitOfJoin([], name);
    }
  }

  lemma NotARoot(users: map<Bytes, int>, r: Row, dir: Bytes, name: Bytes)
    requires UsersOk(users) && SLASH !in name && dir != [] && r.path == Join(dir, name)
    ensures !IsRoot(users, r)
  {
    SplitOfJoin(dir, name);
    if SLASH !in r.filename {
      SplitOfJoin([], r.filename);
    }
  }

  lemma ParentBelowTop(d: State, r: Row, dir: Bytes, name: Bytes)
    requires WellFormed(d) && r in d.rows && r.kind == Directory && SLASH !in name && dir != []
    requires r.path == Join(dir, name)
    ensures r.filename == name && exists p :: p in d.rows && HoldsChild(p, r) && p.path == dir
  {
    hide Attached, OneRoot;
    assert Placed(d.users, d.rows, r);
    NotARoot(d.users, r, dir, name);
    var p :| p in d.rows && IsParent(p, r);
    SplitOfJoin(dir, name);
    SplitOfJoin(p.path, r.filename);
    assert HoldsChild(p, r) && p.path == dir;
  }

  /** A longer path is a child's. */
  lemma BelowTop(d: State, r: Row, dir: Bytes, name: Bytes)
    requires WellFormed(d) && r in d.rows && r.kind == Directory && SLASH !in name && dir != []
    ensures r.path == Join(dir, name)
       <==> r.filename == name && exists p :: p in d.rows && HoldsChild(p, r) && p.path == dir
  {
    hide WellFormed, Join;
    if r.path == Join(dir, name) {
      ParentBelowTop(d, r, dir, name);
    }
    forall p | p in d.rows && HoldsChild(p, r)
      ensures r.path == Join(p.path, r.filename)
    {
      LinkIsParent(d, p, r);
    }
  }

  lemma PathOfIsNotEmpty(names: seq<Bytes>)
    ensures names != [] ==> PathOf(names) != []
  {
  }

  /** Looking a directory up by its path finds exactly the rows that walking finds. */
  lemma {:induction false} LookupIsWalk(d: State, userId: int, names: seq<Bytes>, r: Row)
    requires WellFormed(d) && names != [] && SlashFree(names)
    ensures r in Select(d.rows, DirectoryAt(userId, PathOf(names))) <==> r in WalkDown(d, userId, names)
    decreases |names|
  {
    hide WellFormed;
    var init, last := names[..|names| - 1], names[|names| - 1];
    assert SLASH !in last;
    if r in d.rows && r.kind == Directory && r.userId == userId {
      if init == [] {
        TopLevel(d, r, last);
      } else {
        PathOfIsNotEmpty(init);
        BelowTop(d, r, PathOf(init), last);
        forall p | p in d.rows
          ensures p in WalkDown(d, userId, init) && p.id == r.parentId
             <==> HoldsChild(p, r) && p.path == PathOf(init)
        {
          LookupIsWalk(d, userId, init, p);
        }
        WalkFindsRows(d, userId, init);
      }
    }
  }

  lemma WalkFindsRows(d: State, userId: int, names: seq<Bytes>)
    ensures forall p | p in WalkDown(d, userId, names) :: p in d.rows
  {
  }

  // ----- ls -----

  /** The listing goes by parent id. It shows exactly the user's rows whose path is the current
      directory and their name, apart from files that were uploaded from a vanished directory. */
  lemma ListingIsByPath(d: State, s: Session, r: Row)
    requires WellFormed(d) && Listing(d, s).Some?
    ensures r in Listing(d, s).value
       <==> r in d.rows && r.userId == UserId(d, s.username) && r.parentId != 0 && r.path == Join(s.cwd, r.filename)
  {
    hide WellFormed, First, HoldsChild;
    var userId := UserId(d, s.username);
    var q := DirectoryAt(userId, s.cwd);
    FoundRow(d, q);
    RowIdsArePositive(d, First(d, q).value);
    if r in d.rows && r.userId == userId {
      ChildHasPath(d, First(d, q).value, r);
      if r.parentId != 0 && r.path == Join(s.cwd, r.filename) {
        PathMakesChild(d, s.cwd, r);
      }
    }
  }

  lemma ChildHasPath(d: State, dir: Row, r: Row)
    requires WellFormed(d) && dir in d.rows && r in d.rows && dir.kind == Directory && r.userId == dir.userId
    ensures r.parentId == dir.id ==> r.path == Join(dir.path, r.filename)
  {
    hide WellFormed;
    if HoldsChild(dir, r) {
      LinkIsParent(d, dir, r);
    }
  }

  lemma PathMakesChild(d: State, cwd: Bytes, r: Row)
    requires WellFormed(d) && r in d.rows && r.parentId != 0 && r.path == Join(cwd, r.filename)
    ensures var first := First(d, DirectoryAt(r.userId, cwd));
            first != None && r.parentId == first.value.id
  {
    hide WellFormed, First;
    HasLink(d, r);
    var p :| p in d.rows && IsParent(p, r);
    assert p.path == r.path[..|cwd|] == cwd;
    FirstOfAttached(d, p, r);
  }

  lemma FirstOfAttached(d: State, p: Row, r: Row)
    requires WellFormed(d) && p in d.rows && r in d.rows && HoldsChild(p, r)
    ensures First(d, DirectoryAt(p.userId, p.path)) == Some(p)
  {
    hide UsersOk, IdsIncrease, AllPlaced, OneRoot;
    assert FirstOf(d.rows, DirectoryAt(p.userId, p.path)) == Some(p);
  }
}
