/** The server's state - file table, blob directory, registered users - and what every command does
    to it. `Session` is the part of a UserInfo the commands read. */
module Disk {
  import opened Wire
  import opened Digest
  import opened PutsExchange
  import opened Paths
  import opened Table

  /** The file that a path leading out of the upload directory comes to: one outside, one inside again,
      or none that can be opened. */
  type Outside = Bytes -> Option<Bytes>

  datatype State = State(
    rows: seq<Row>,
    nextId: int,
    blobs: map<Bytes, Bytes>,
    users: map<Bytes, int>,
    outside: Outside)

  datatype Session = Session(username: Bytes, cwd: Bytes)

  /** The state after a command, the session's current directory and the handler's return value. */
  datatype Effect = Effect(state: State, cwd: Bytes, ok: bool)

  function UserId(d: State, username: Bytes): int {
    if username in d.users then d.users[username] else -1
  }

  function First(d: State, q: Query): Option<Row> {
    FirstOf(d.rows, q)
  }

  function DirId(d: State, userId: int, dir: Bytes): int {
    match First(d, DirectoryAt(userId, dir))
    case None => -1
    case Some(row) => row.id
  }

  function Insert(d: State, row: Row): State {
    d.(rows := d.rows + [row.(id := d.nextId)], nextId := d.nextId + 1)
  }

  function Remove(d: State, userId: int, id: int): State {
    d.(rows := Deleted(d.rows, userId, id))
  }

  function DirectoryRow(userId: int, parentId: int, path: Bytes, filename: Bytes): Row {
    Row(0, filename, userId, parentId, path, Directory, [], 0)
  }

  function FileRow(userId: int, parentId: int, cwd: Bytes, filename: Bytes, sha256: Bytes, size: int): Row {
    Row(0, filename, userId, parentId, Join(cwd, filename), File, sha256, size)
  }

  // ----- the blob directory -----

  /** A name that can be opened for writing in a directory of plain files. */
  predicate IsFileName(file: Bytes) {
    file != [] && file != [DOT] && file != [DOT, DOT] && SLASH !in file
  }

  predicate LeadsOut(path: Bytes) {
    |path| >= 3 && path[0] == path[1] == DOT && path[2] == SLASH
  }

  /** The file that "upload_dir/sha256" is, if it can be opened for writing: slashes and "./" in front
      are skipped, and what a path makes that leads out of the directory is up to the file system. */
  function FileOf(outside: Outside, sha256: Bytes): (file: Option<Bytes>)
    ensures SLASH !in sha256 ==> file == if IsFileName(sha256) then Some(sha256) else None
  {
    if sha256 != [] && sha256[0] == SLASH then FileOf(outside, sha256[1..])
    else if |sha256| >= 2 && sha256[0] == DOT && sha256[1] == SLASH then FileOf(outside, sha256[2..])
    else if LeadsOut(sha256) then outside(sha256)
    else if IsFileName(sha256) then Some(sha256)
    else None
  }

  /** Spellings: "/x" and "./x" are x, "../x" is what the file system says, and a path into a
      subdirectory, of which there are none, cannot be opened. */
  lemma Spellings(outside: Outside, x: Bytes, name: Bytes)
    requires name != [] && 47 !in name && name != [46] && name != [46, 46]
    ensures FileOf(outside, name) == Some(name)
    ensures FileOf(outside, [47] + x) == FileOf(outside, x) == FileOf(outside, [46, 47] + x)
    ensures FileOf(outside, [46, 46, 47] + x) == outside([46, 46, 47] + x)
    ensures FileOf(outside, name + [47] + x) == None
    ensures FileOf(outside, []) == FileOf(outside, [46]) == FileOf(outside, [46, 46]) == None
  {
    assert ([47] + x)[1..] == x && ([46, 47] + x)[2..] == x;
    var path := name + [47] + x;
    assert name[0] in name && path[0] == name[0] && path[|name|] == 47;
    assert |name| >= 2 ==> name[1] in name && path[1] == name[1];
    assert |name| >= 3 ==> name[2] in name && path[2] == name[2];
    assert |name| == 1 ==> name == [name[0]];
    assert |name| == 2 ==> name == [name[0], name[1]];
  }

  lemma ShaIsFileName(h: Hash, outside: Outside, content: Bytes)
    ensures FileOf(outside, Sha(h, content)) == Some(Sha(h, content))
    ensures SLASH !in Sha(h, content)
  {
    hide Sha;
    var sha256 := Sha(h, content);
    assert forall i | 0 <= i < |sha256| :: sha256[i] >= 48;
  }

  // ----- the commands -----

  /** The end of the login dialogue: current directory, and the root row if there is nothing at the
      top level yet. */
  function Login(d: State, s: Session): (e: Effect)
    ensures e.state.users == d.users && e.state.outside == d.outside
    ensures e.state.blobs == d.blobs
  {
    var userId := UserId(d, s.username);
    if userId > 0 && Select(d.rows, ChildrenOf(userId, 0)) == [] then
      Effect(Insert(d, DirectoryRow(userId, 0, RootOf(s.username), s.username)), RootOf(s.username), true)
    else Effect(d, RootOf(s.username), true)
  }

  function Cd(d: State, s: Session, dir: Bytes): (e: Effect)
    ensures e.state.users == d.users && e.state.outside == d.outside
    ensures e.state.blobs == d.blobs
  {
    var path := Normalized(s.cwd, dir, s.username);
    var userId := UserId(d, s.username);
    if userId < 0 || First(d, DirectoryAt(userId, path)) == None then Effect(d, s.cwd, false)
    else Effect(d, path, true)
  }

  function Mkdir(d: State, s: Session, dir: Bytes): (e: Effect)
    ensures e.state.users == d.users && e.state.outside == d.outside
    ensures e.state.blobs == d.blobs
  {
    var path := Normalized(s.cwd, dir, s.username);
    var userId := UserId(d, s.username);
    if userId < 0 then Effect(d, s.cwd, false)
    else
      match First(d, DirectoryAt(userId, ParentOf(path)))
      case None => Effect(d, s.cwd, false)
      case Some(parent) => Effect(Insert(d, DirectoryRow(userId, parent.id, path, NameOf(path))), s.cwd, true)
  }

  function Rmdir(d: State, s: Session, dir: Bytes): (e: Effect)
    ensures e.state.users == d.users && e.state.outside == d.outside
    ensures e.state.blobs == d.blobs
  {
    var path := Normalized(s.cwd, dir, s.username);
    var userId := UserId(d, s.username);
    if userId < 0 then Effect(d, s.cwd, false)
    else
      match First(d, DirectoryAt(userId, path))
      case None => Effect(d, s.cwd, false)
      case Some(row) =>
        if Select(d.rows, ChildrenOf(userId, row.id)) != [] then Effect(d, s.cwd, false)
        else Effect(Remove(d, userId, row.id), if s.cwd == path then ParentOf(path) else s.cwd, true)
  }

  function Rm(d: State, s: Session, file: Bytes): (e: Effect)
    ensures e.state.users == d.users && e.state.outside == d.outside
    ensures e.state.blobs == d.blobs
  {
    var path := Normalized(s.cwd, file, s.username);
    var userId := UserId(d, s.username);
    if userId < 0 then Effect(d, s.cwd, false)
    else
      match First(d, FileAt(userId, path))
      case None => Effect(d, s.cwd, false)
      case Some(row) => Effect(Remove(d, userId, row.id), s.cwd, true)
  }

  /** An upload over a connection that delivers exactly `w`. */
  function Puts(d: State, s: Session, filename: Bytes, w: Bytes): Effect {
    var userId := UserId(d, s.username);
    match RecvOffer(filename, w)
    case None => Effect(d, s.cwd, false)
    case Some(offer) =>
      if userId < 0 then Effect(d, s.cwd, false)
      else
        var dirId := DirId(d, userId, s.cwd);
        var parentId := if dirId < 0 then 0 else dirId;
        var row := FileRow(userId, parentId, s.cwd, filename, offer.hash, offer.size);
        if First(d, WithHash(offer.hash)).Some? then Effect(Insert(d, row), s.cwd, true)
        else if FileOf(d.outside, offer.hash) == None then Effect(d, s.cwd, false)
        else
          var blob := RecvBlob(offer.size, offer.rest);
          var stored := d.(blobs := d.blobs[FileOf(d.outside, offer.hash).value := blob.content]);
          if blob.complete then Effect(Insert(stored, row), s.cwd, true)
          else Effect(stored, s.cwd, false)
  }

  /** What an upload that is recorded leaves on the connection. */
  function PutsRest(d: State, filename: Bytes, w: Bytes): Bytes {
    match RecvOffer(filename, w)
    case None => []
    case Some(offer) =>
      if First(d, WithHash(offer.hash)).Some? then offer.rest else RecvBlob(offer.size, offer.rest).rest
  }

  function VirtualPath(s: Session, filename: Bytes): Bytes {
    if s.cwd == [SLASH] then [SLASH] + filename else Join(s.cwd, filename)
  }

  /** The blob a hash names, if there is one. */
  function BlobNamed(d: State, sha256: Bytes): Option<Bytes> {
    var file := FileOf(d.outside, sha256);
    if file.Some? && file.value in d.blobs then Some(d.blobs[file.value]) else None
  }

  /** The blob a download serves, if the name resolves and the blob can be opened. */
  function GetsSource(d: State, s: Session, filename: Bytes): Option<Bytes> {
    var userId := UserId(d, s.username);
    if userId < 0 then None
    else
      match First(d, FileAt(userId, VirtualPath(s, filename)))
      case None => None
      case Some(row) => BlobNamed(d, row.sha256)
  }

  /** The records `ls` shows. */
  function Listing(d: State, s: Session): Option<seq<Row>> {
    var userId := UserId(d, s.username);
    var dirId := DirId(d, userId, s.cwd);
    if userId < 0 || dirId < 0 then None else Some(Select(d.rows, ChildrenOf(userId, dirId)))
  }
}
