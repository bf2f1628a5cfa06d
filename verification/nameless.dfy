/** How a directory gets an empty name, and a listing on which the layout of `ls` dies. */
module Nameless {
  import opened Wire
  import opened Paths
  import opened Table
  import opened Disk
  import opened Tree
  import opened Ascent
  import G = Grid

  const TWO_SLASHES: Bytes := [SLASH, SLASH]

  /** Of two trailing slashes one goes: what is left is an empty name below the directory. */
  lemma TwoSlashes(s: Session, name: Bytes)
    requires PlainName(name)
    ensures Normalized(s.cwd, name + TWO_SLASHES, s.username) == Join(Join(s.cwd, name), [])
    ensures ParentOf(Join(Join(s.cwd, name), [])) == Join(s.cwd, name)
    ensures NameOf(Join(Join(s.cwd, name), [])) == []
  {
    hide ParentOf, NameOf;
    var input := name + TWO_SLASHES;
    assert name[0] in name && input[0] == name[0];
    assert |name| == 1 ==> name == [name[0]];
    assert |name| >= 2 ==> name[1] in name && input[1] == name[1];
    assert Expanded(s.cwd, input, s.username) == Join(s.cwd, input);
    var path := Join(s.cwd, input);
    assert path[..|path| - 1] == Join(Join(s.cwd, name), []);
    SplitOfJoin(Join(s.cwd, name), []);
  }

  lemma NobodyHasTheNextId(d: State, userId: int)
    requires WellFormed(d)
    ensures Select(d.rows, ChildrenOf(userId, d.nextId)) == [] && d.nextId >= 1
  {
    hide AllPlaced, Attached, OneRoot, UsersOk;
    forall r | r in d.rows
      ensures !Matches(ChildrenOf(userId, d.nextId), r)
    {
      NoChildrenYet(d.users, d.rows, d.nextId, r);
    }
    SelectNothing(d.rows, ChildrenOf(userId, d.nextId));
  }

  /** One directory made and a nameless one below it, in the terms of the table. */
  lemma NamelessChild(d: State, s: Session, dir: Bytes, first: Row, second: Row)
    requires WellFormed(d) && UserId(d, s.username) == first.userId == second.userId && first.userId >= 0
    requires Select(d.rows, DirectoryAt(first.userId, dir)) == []
    requires first.kind == second.kind == Directory && first.path == dir && second.path == Join(dir, [])
    requires first.parentId < d.nextId && second.parentId == d.nextId
    ensures Listing(Insert(Insert(d, first), second), s.(cwd := dir)) == Some([second.(id := d.nextId + 1)])
    ensures First(Insert(d, first), DirectoryAt(first.userId, dir)) == Some(first.(id := d.nextId))
  {
    hide WellFormed, Select;
    var below := ChildrenOf(first.userId, d.nextId);
    var at := DirectoryAt(first.userId, dir);
    var r1, r2 := first.(id := d.nextId), second.(id := d.nextId + 1);
    NobodyHasTheNextId(d, first.userId);
    SelectAppend(d.rows, r1, at);
    SelectAppend(d.rows, r1, below);
    SelectAppend(d.rows + [r1], r2, at);
    SelectAppend(d.rows + [r1], r2, below);
    assert |Join(dir, [])| > |dir|;
    var d2 := Insert(Insert(d, first), second);
    assert d2.rows == d.rows + [r1] + [r2];
    assert Select(d2.rows, at) == [r1];
    assert Select(d2.rows, below) == [r2];
  }

  /** `mkdir name; mkdir name//; cd name; ls`: in any state of the table, if there is no directory of
      that name yet. Both directories are made, and the listing is one record with an empty name. */
  lemma NamelessListing(d: State, s: Session, name: Bytes)
    requires WellFormed(d) && s.username in d.users && PlainName(name)
    requires First(d, DirectoryAt(UserId(d, s.username), s.cwd)) != None
    requires First(d, DirectoryAt(UserId(d, s.username), Join(s.cwd, name))) == None
    ensures var made := Mkdir(d, s, name);
            var again := Mkdir(made.state, s, name + TWO_SLASHES);
            var listing := Listing(again.state, s.(cwd := Join(s.cwd, name)));
            made.ok && again.ok && listing.Some? && |listing.value| == 1 && G.AllNamesEmpty(listing.value)
  {
    hide WellFormed, Normalized, Select, ParentOf, NameOf, Insert, Listing;
    var userId, dir := UserId(d, s.username), Join(s.cwd, name);
    var parent := First(d, DirectoryAt(userId, s.cwd)).value;
    RegisteredUser(d, s.username);
    FoundRow(d, DirectoryAt(userId, s.cwd));
    DirectoryPathShape(d, parent);
    RowIdIsOld(d, parent);
    EnterPlainName(s, name);
    SplitOfJoin(s.cwd, name);
    TwoSlashes(s, name);
    var first := DirectoryRow(userId, parent.id, dir, name);
    var second := DirectoryRow(userId, d.nextId, Join(dir, []), []);
    NamelessChild(d, s, dir, first, second);
    InsertKeepsUsers(d, first);
    assert Mkdir(d, s, name) == Effect(Insert(d, first), s.cwd, true);
    assert Mkdir(Insert(d, first), s, name + TWO_SLASHES)
        == Effect(Insert(Insert(d, first), second), s.cwd, true);
  }

  lemma InsertKeepsUsers(d: State, row: Row)
    ensures Insert(d, row).users == d.users
  {
  }

  lemma RowIdIsOld(d: State, r: Row)
    requires WellFormed(d) && r in d.rows
    ensures r.id < d.nextId
  {
  }
}
