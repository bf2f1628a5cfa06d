/** Virtual paths: the two helpers of the command handlers and what they mean. */
module Paths {
  import opened Wire

  const SLASH: byte := 47
  const TILDE: byte := 126
  const DOT: byte := 46

  function Join(dir: Bytes, name: Bytes): Bytes {
    dir + [SLASH] + name
  }

  function RootOf(username: Bytes): Bytes {
    [SLASH] + username
  }

  // ----- extract_parent_and_dirname -----

  /** `strrchr`: the position of the last slash, or -1. */
  function LastSlash(path: Bytes): (i: int)
    ensures -1 <= i < |path|
    ensures i == -1 ==> SLASH !in path
    ensures i >= 0 ==> path[i] == SLASH && SLASH !in path[i + 1..]
  {
    if path == [] then -1
    else if path[|path| - 1] == SLASH then |path| - 1
    else
      var init, last := path[..|path| - 1], path[|path| - 1];
      var i := LastSlash(init);
      assert path == init + [last];
      assert i >= 0 ==> path[i + 1..] == init[i + 1..] + [last];
      i
  }

  function ParentOf(path: Bytes): Bytes {
    var i := LastSlash(path);
    if i == -1 then path else if i == 0 then [SLASH] else path[..i]
  }

  function NameOf(path: Bytes): Bytes {
    path[LastSlash(path) + 1..]
  }

  lemma LastSlashIsUnique(path: Bytes, i: nat)
    requires i < |path| && path[i] == SLASH && SLASH !in path[i + 1..]
    ensures LastSlash(path) == i
  {
    var j := LastSlash(path);
    assert forall k | i < k < |path| :: path[k] == path[i + 1..][k - (i + 1)];
    if j >= 0 {
      assert forall k | j < k < |path| :: path[k] == path[j + 1..][k - (j + 1)];
    }
  }

  /** Appending one component and splitting it off again gives both parts back. */
  lemma SplitOfJoin(dir: Bytes, name: Bytes)
    requires SLASH !in name
    ensures NameOf(Join(dir, name)) == name
    ensures ParentOf(Join(dir, name)) == if dir == [] then [SLASH] else dir
  {
    var path := Join(dir, name);
    assert path[|dir| + 1..] == name;
    LastSlashIsUnique(path, |dir|);
    assert path[..|dir|] == dir;
  }

  lemma LengthOfSplit(path: Bytes)
    ensures |ParentOf(path)| + 1 + |NameOf(path)| > |path| <==> LastSlash(path) <= 0
  {
  }

  lemma JoinOfSplit(path: Bytes)
    requires LastSlash(path) > 0
    ensures path == Join(ParentOf(path), NameOf(path))
    ensures SLASH !in NameOf(path)
  {
    var i := LastSlash(path);
    assert path == path[..i] + [path[i]] + path[i + 1..];
  }

  /** A path is its parent and its name, joined, exactly when it has a slash behind its first byte:
      for "/name" the parent is "/", and for a path without a slash it is the path itself. */
  lemma JoinOfSplitIff(path: Bytes)
    ensures path == Join(ParentOf(path), NameOf(path)) <==> LastSlash(path) > 0
  {
    hide ParentOf, NameOf;
    LengthOfSplit(path);
    if LastSlash(path) > 0 {
      JoinOfSplit(path);
    } else {
      assert |Join(ParentOf(path), NameOf(path))| > |path|;
    }
  }

  lemma SplitAt(path: Bytes, i: nat)
    requires i < |path| && path[i] == SLASH && SLASH !in path[i + 1..]
    ensures ParentOf(path) == (if i == 0 then [SLASH] else path[..i]) && NameOf(path) == path[i + 1..]
  {
    hide LastSlash;
    LastSlashIsUnique(path, i);
  }

  lemma NoSplit(path: Bytes)
    requires SLASH !in path
    ensures ParentOf(path) == path == NameOf(path)
  {
    hide LastSlash;
    assert path[0..] == path;
  }

  lemma NoSlashFrom(path: Bytes, i: nat)
    requires i < |path| && path[i] != SLASH && SLASH !in path[i + 1..]
    ensures SLASH !in path[i..]
  {
    assert path[i..] == [path[i]] + path[i + 1..];
  }

  method ExtractParentAndDirname(path: Bytes) returns (parent: Bytes, dirname: Bytes)
    ensures dirname == NameOf(path)
    ensures parent == ParentOf(path)
  {
    hide LastSlash, ParentOf, NameOf;
    var i := |path| - 1;
    while i >= 0 && path[i] != SLASH
      invariant -1 <= i < |path|
      invariant SLASH !in path[i + 1..]
    {
      NoSlashFrom(path, i);
      i := i - 1;
    }
    if i >= 0 {
      SplitAt(path, i);
      parent := if i == 0 then [SLASH] else path[..i];
      dirname := path[i + 1..];
    } else {
      NoSplit(path);
      return path, path;
    }
  }

  // ----- normalize_path -----

  function Expanded(current: Bytes, input: Bytes, username: Bytes): Bytes {
    if input == [] || input == [TILDE] || input == [SLASH] then RootOf(username)
    else if input == [DOT] then current
    else if input == [DOT, DOT] then ParentOf(current)
    else if |input| >= 2 && input[0] == TILDE && input[1] == SLASH then Join(RootOf(username), input[2..])
    else if input[0] == SLASH then input
    else Join(current, input)
  }

  /** One trailing slash goes, unless it is the whole path. */
  function Stripped(path: Bytes): Bytes {
    if |path| > 1 && path[|path| - 1] == SLASH then path[..|path| - 1] else path
  }

  function Normalized(current: Bytes, input: Bytes, username: Bytes): Bytes {
    Stripped(Expanded(current, input, username))
  }

  method ExpandPath(current: Bytes, input: Bytes, username: Bytes) returns (output: Bytes)
    ensures output == Expanded(current, input, username)
  {
    hide LastSlash, ParentOf;
    var root := [SLASH] + username;
    if input == [] || input == [TILDE] || input == [SLASH] {
      output := root;
    } else if input == [DOT] {
      output := current;
    } else if input == [DOT, DOT] {
      var parent, dummy := ExtractParentAndDirname(current);
      output := parent;
    } else if |input| >= 2 && input[0] == TILDE && input[1] == SLASH {
      output := root + [SLASH] + input[2..];
    } else if input[0] == SLASH {
      output := input;
    } else {
      output := current + [SLASH] + input;
    }
  }

  method NormalizePath(current: Bytes, input: Bytes, username: Bytes) returns (output: Bytes)
    ensures output == Normalized(current, input, username)
  {
    hide Expanded;
    output := ExpandPath(current, input, username);
    var len := |output|;
    if len > 1 && output[len - 1] == SLASH {
      output := output[..len - 1];
    }
  }

  // ----- what the arguments mean -----

  predicate EndsInSlash(path: Bytes) {
    path != [] && path[|path| - 1] == SLASH
  }

  /** A user name as it is registered: one path component. */
  predicate Component(name: Bytes) {
    name != [] && SLASH !in name
  }

  lemma RootHasNoTrailingSlash(username: Bytes)
    requires Component(username)
    ensures !EndsInSlash([SLASH] + username)
  {
    assert username[|username| - 1] in username;
  }

  /** "", "~" and "/" mean the user's root, "." the current directory less one trailing slash. */
  lemma SpecialArguments(current: Bytes, username: Bytes)
    requires Component(username)
    ensures Normalized(current, [], username) == [47] + username
    ensures Normalized(current, [126], username) == [47] + username
    ensures Normalized(current, [47], username) == [47] + username
    ensures !EndsInSlash(current) || current == [47] ==> Normalized(current, [46], username) == current
    ensures current != [] ==> Normalized(current + [47], [46], username) == current
  {
    RootHasNoTrailingSlash(username);
    assert (current + [47])[..|current|] == current;
  }

  /** "~/x" means the path x below the user's root, less one trailing slash. */
  lemma HomeArguments(current: Bytes, username: Bytes, x: Bytes)
    requires Component(username)
    ensures x != [] && !EndsInSlash(x) ==> Normalized(current, [126, 47] + x, username) == [47] + username + [47] + x
    ensures Normalized(current, [126, 47] + (x + [47]), username) == [47] + username + [47] + x
    ensures Normalized(current, [126, 47], username) == [47] + username
  {
    hide Normalized;
    HomePath(current, username, x);
    HomePath(current, username, x + [47]);
    HomePath(current, username, []);
    assert [126, 47] + [] == [126, 47];
    var path := [47] + username + [47];
    assert (path + (x + [47]))[..|path + x|] == path + x;
    assert (path + [])[..|path| - 1] == [47] + username;
  }

  lemma HomePath(current: Bytes, username: Bytes, x: Bytes)
    ensures Normalized(current, [126, 47] + x, username) == Stripped([47] + username + [47] + x)
  {
    var input := [126, 47] + x;
    assert input[2..] == x;
    assert input[0] == 126 && input[1] == 47;
  }

  lemma AbsoluteArguments(current: Bytes, username: Bytes, x: Bytes)
    requires x != []
    ensures !EndsInSlash(x) ==> Normalized(current, [47] + x, username) == [47] + x
    ensures Normalized(current, [47] + x + [47], username) == [47] + x
  {
    assert ([47] + x)[0] == 47 && ([47] + x + [47])[0] == 47;
    assert ([47] + x + [47])[..1 + |x|] == [47] + x;
  }

  /** Everything else is appended to the current directory, but "..", which takes its last name away. */
  lemma RelativeArguments(current: Bytes, username: Bytes, x: Bytes)
    requires x != [] && x[0] != 47 && x != [126] && x != [46] && x != [46, 46]
    requires !(|x| >= 2 && x[0] == 126 && x[1] == 47)
    ensures !EndsInSlash(x) ==> Normalized(current, x, username) == current + [47] + x
    ensures EndsInSlash(x) ==> Normalized(current, x, username) == current + [47] + x[..|x| - 1]
  {
    hide ParentOf;
    assert EndsInSlash(x) ==> (current + [47] + x)[..|current| + |x|] == current + [47] + x[..|x| - 1];
  }

  lemma UpArgument(dir: Bytes, name: Bytes, username: Bytes)
    requires Component(name)
    ensures !EndsInSlash(dir) ==>
              Normalized(dir + [47] + name, [46, 46], username) == if dir == [] then [47] else dir
  {
    hide ParentOf;
    SplitOfJoin(dir, name);
    assert dir + [47] + name == Join(dir, name);
  }
}
