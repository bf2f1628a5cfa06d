/** `cd ..` step by step, and `cd name; cd ..`. */
module Ascent {
  import opened Wire
  import opened Paths
  import opened Table
  import opened Disk
  import opened Tree
  import opened Walk

  const UP: Bytes := [DOT, DOT]

  /** A path of ordinary components: none empty, none with a slash. */
  predicate Ordinary(names: seq<Bytes>) {
    forall i | 0 <= i < |names| :: names[i] != [] && SLASH !in names[i]
  }

  lemma OrdinaryPathShape(names: seq<Bytes>)
    requires Ordinary(names) && names != []
    ensures var init := names[..|names| - 1];
            && PathOf(names) == Join(PathOf(init), names[|names| - 1])
            && |PathOf(names)| >= 2 && PathOf(names)[|PathOf(names)| - 1] != SLASH
            && ParentOf(PathOf(names)) == (if init == [] then [SLASH] else PathOf(init))
            && NameOf(PathOf(names)) == names[|names| - 1]
  {
    var init, last := names[..|names| - 1], names[|names| - 1];
    SplitOfJoin(PathOf(init), last);
    assert last[|last| - 1] != SLASH;
    PathOfIsNotEmpty(init);
  }

  lemma GoingUp(current: Bytes, username: Bytes)
    ensures Normalized(current, UP, username) == Stripped(ParentOf(current))
  {
    assert |UP| == 2;
  }

  lemma UpFrom(names: seq<Bytes>, username: Bytes)
    requires Ordinary(names) && names != []
    ensures Normalized(PathOf(names), UP, username)
         == if |names| == 1 then [SLASH] else PathOf(names[..|names| - 1])
  {
    hide Normalized, PathOf;
    GoingUp(PathOf(names), username);
    OrdinaryPathShape(names);
    if |names| > 1 {
      OrdinaryPathShape(names[..|names| - 1]);
    }
  }

  /** A directory's prefix directories are live. */
  lemma PrefixIsLive(d: State, userId: int, names: seq<Bytes>)
    requires WellFormed(d) && Ordinary(names) && |names| >= 2
    requires First(d, DirectoryAt(userId, PathOf(names))) != None
    ensures First(d, DirectoryAt(userId, PathOf(names[..|names| - 1]))) != None
  {
    hide WellFormed, First, PathOf;
    var init, last := names[..|names| - 1], names[|names| - 1];
    var r := First(d, DirectoryAt(userId, PathOf(names))).value;
    FoundRow(d, DirectoryAt(userId, PathOf(names)));
    OrdinaryPathShape(names);
    PathOfIsNotEmpty(init);
    BelowTop(d, r, PathOf(init), last);
    var p :| p in d.rows && HoldsChild(p, r) && p.path == PathOf(init);
    FirstExists(d, DirectoryAt(userId, PathOf(init)), p);
  }

  lemma FirstExists(d: State, q: Query, r: Row)
    requires r in d.rows && Matches(q, r)
    ensures First(d, q) != None
  {
    assert r in Select(d.rows, q);
  }

  lemma NothingAtSlash(d: State, userId: int)
    requires WellFormed(d)
    ensures First(d, DirectoryAt(userId, [SLASH])) == None
  {
    hide WellFormed;
    var q := DirectoryAt(userId, [SLASH]);
    if First(d, q) != None {
      FoundRow(d, q);
      DirectoryPathShape(d, First(d, q).value);
      assert false;
    }
  }

  /** One `cd ..` goes to the parent directory; at a root it fails and changes nothing. */
  lemma CdUp(d: State, s: Session, names: seq<Bytes>)
    requires WellFormed(d) && Ordinary(names) && names != []
    requires s.username in d.users && s.cwd == PathOf(names)
    requires First(d, DirectoryAt(UserId(d, s.username), s.cwd)) != None
    ensures Cd(d, s, UP) == if |names| == 1 then Effect(d, s.cwd, false)
                            else Effect(d, PathOf(names[..|names| - 1]), true)
  {
    hide WellFormed, PathOf, Normalized, First;
    UpFrom(names, s.username);
    RegisteredUser(d, s.username);
    if |names| == 1 {
      NothingAtSlash(d, UserId(d, s.username));
    } else {
      PrefixIsLive(d, UserId(d, s.username), names);
    }
  }

  /** The current directory after `n` times `cd ..`, and how many of them succeeded. */
  function Ascend(d: State, s: Session, n: nat): (Bytes, nat)
    decreases n
  {
    if n == 0 then (s.cwd, 0)
    else
      var up := Cd(d, s, UP);
      var (cwd, succeeded) := Ascend(d, s.(cwd := up.cwd), n - 1);
      (cwd, succeeded + if up.ok then 1 else 0)
  }

  /** From depth k below the root, of any number of `cd ..` exactly the first k succeed; each goes
      one level up, and the last ends in the user's root. */
  lemma {:induction false} AscentReachesRoot(d: State, s: Session, names: seq<Bytes>, n: nat)
    requires WellFormed(d) && Ordinary(names) && names != []
    requires s.username in d.users && s.cwd == PathOf(names)
    requires First(d, DirectoryAt(UserId(d, s.username), s.cwd)) != None
    ensures var k := Min(n, |names| - 1);
            Ascend(d, s, n) == (PathOf(names[..|names| - k]), k)
    decreases n
  {
    hide WellFormed, PathOf, Cd, First;
    if n == 0 {
      assert names[..|names|] == names;
    } else {
      CdUp(d, s, names);
      if |names| == 1 {
        AscentReachesRoot(d, s, names, n - 1);
      } else {
        var init := names[..|names| - 1];
        PrefixIsLive(d, UserId(d, s.username), names);
        AscentReachesRoot(d, s.(cwd := PathOf(init)), init, n - 1);
        var k := Min(n, |names| - 1);
        assert init[..|init| - (k - 1)] == names[..|names| - k];
      }
    }
  }

  /** A plain relative name, none of the special arguments. */
  predicate PlainName(name: Bytes) {
    name != [] && SLASH !in name && name != [DOT] && name != UP && name != [TILDE]
  }

  lemma EnterPlainName(s: Session, name: Bytes)
    requires PlainName(name)
    ensures Normalized(s.cwd, name, s.username) == Join(s.cwd, name)
    ensures Normalized(Join(s.cwd, name), UP, s.username) == Stripped(if s.cwd == [] then [SLASH] else s.cwd)
  {
    hide Expanded;
    SplitOfJoin(s.cwd, name);
    PlainIsRelative(s, name);
    assert name[|name| - 1] in name;
    GoingUp(Join(s.cwd, name), s.username);
  }

  lemma PlainIsRelative(s: Session, name: Bytes)
    requires PlainName(name)
    ensures Expanded(s.cwd, name, s.username) == Join(s.cwd, name)
  {
    assert name[0] in name && (|name| >= 2 ==> name[1] in name);
  }

  /** `cd name; cd ..` comes back to where it started, unless the current directory ends in a slash
      (a directory with an empty name), in which case it ends one level higher. */
  lemma EnterAndLeave(d: State, s: Session, name: Bytes)
    requires WellFormed(d) && s.username in d.users && PlainName(name)
    requires First(d, DirectoryAt(UserId(d, s.username), s.cwd)) != None
    requires Cd(d, s, name).ok
    ensures var back := Cd(d, s.(cwd := Cd(d, s, name).cwd), UP);
            back.ok && (back.cwd == s.cwd <==> !EndsInSlash(s.cwd))
  {
    hide WellFormed, Normalized, First;
    var q := DirectoryAt(UserId(d, s.username), s.cwd);
    var r := First(d, q).value;
    FoundRow(d, q);
    DirectoryPathShape(d, r);
    EnterPlainName(s, name);
    if EndsInSlash(s.cwd) {
      EmptyNameHasParent(d, UserId(d, s.username), r);
    }
  }

  /** A directory whose path ends in a slash has the path without it as its parent. */
  lemma EmptyNameHasParent(d: State, userId: int, r: Row)
    requires WellFormed(d) && r in d.rows && r.kind == Directory && r.userId == userId
    requires EndsInSlash(r.path)
    ensures First(d, DirectoryAt(userId, r.path[..|r.path| - 1])) != None
  {
    hide WellFormed, First;
    var dir := r.path[..|r.path| - 1];
    assert r.path == Join(dir, []);
    DirectoryPathShape(d, r);
    BelowTop(d, r, dir, []);
    var p :| p in d.rows && HoldsChild(p, r) && p.path == dir;
    FirstExists(d, DirectoryAt(userId, dir), p);
  }

  /** Uploads and downloads name the same virtual path exactly while the current directory is not
      "/": there an upload records "//name" and a download looks for "/name". */
  lemma UploadAndDownloadPathsAgreeIff(s: Session, filename: Bytes)
    ensures VirtualPath(s, filename) == Join(s.cwd, filename) <==> s.cwd != [SLASH]
  {
    if s.cwd == [SLASH] {
      assert |VirtualPath(s, filename)| < |Join(s.cwd, filename)|;
    }
  }
}
