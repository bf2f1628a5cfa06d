/** The program: the table operations and command handlers on shared, updated state. */
module Server {
  import opened Wire
  import opened Digest
  import opened Net
  import opened GetsServer
  import opened PutsExchange
  import opened Paths
  import opened Table
  import opened Disk

  class UserInfo {
    const username: Bytes
    var currentDir: Bytes

    constructor (username: Bytes)
      ensures this.username == username && currentDir == []
    {
      this.username := username;
      currentDir := [];
    }

    function View(): Session
      reads this
    {
      Session(username, currentDir)
    }
  }

  class CloudDisk {
    var rows: seq<Row>
    var nextId: int
    var blobs: map<Bytes, Bytes>
    var users: map<Bytes, int>
    const outside: Outside

    constructor (users: map<Bytes, int>, outside: Outside)
      ensures View() == State([], 1, map[], users, outside)
    {
      rows, nextId, blobs := [], 1, map[];
      this.users, this.outside := users, outside;
    }

    function View(): State
      reads this
    {
      State(rows, nextId, blobs, users, outside)
    }

    // ----- file_db -----

    /** SELECT: the matching rows in table order. */
    method RunQuery(q: Query) returns (result: seq<Row>)
      ensures result == Select(rows, q)
    {
      result := [];
      for i := 0 to |rows|
        invariant result == Select(rows[..i], q)
      {
        SelectAppend(rows[..i], rows[i], q);
        assert rows[..i + 1] == rows[..i] + [rows[i]];
        if Matches(q, rows[i]) {
          result := result + [rows[i]];
        }
      }
      assert rows[..|rows|] == rows;
    }

    method CreateRecord(record: Row)
      modifies this`rows, this`nextId
      ensures View() == Insert(old(View()), record)
    {
      rows := rows + [record.(id := nextId)];
      nextId := nextId + 1;
    }

    method DeleteRecord(userId: int, recordId: int)
      modifies this`rows
      ensures View() == Remove(old(View()), userId, recordId)
    {
      var kept: seq<Row> := [];
      for i := 0 to |rows|
        invariant rows == old(rows)
        invariant kept == Deleted(rows[..i], userId, recordId)
      {
        DeletedAppend(rows[..i], rows[i], userId, recordId);
        assert rows[..i + 1] == rows[..i] + [rows[i]];
        if !(rows[i].id == recordId && rows[i].userId == userId) {
          kept := kept + [rows[i]];
        }
      }
      assert rows[..|rows|] == rows;
      rows := kept;
    }

    /** The records of a directory, copied one by one into a new array. */
    method ListRecords(userId: int, parentId: int) returns (records: array<Row>)
      ensures fresh(records)
      ensures records[..] == Select(rows, ChildrenOf(userId, parentId))
    {
      var result := RunQuery(ChildrenOf(userId, parentId));
      records := new Row[|result|](_ => Row(0, [], 0, 0, [], File, [], 0));
      for idx := 0 to |result|
        invariant records[..idx] == result[..idx]
      {
        records[idx] := result[idx];
      }
      assert result[..|result|] == result;
    }

    method FindByHash(sha256: Bytes) returns (record: Option<Row>)
      ensures record == First(View(), WithHash(sha256))
    {
      var result := RunQuery(WithHash(sha256));
      return if |result| == 0 then None else Some(result[0]);
    }

    method GetRecordByPath(userId: int, virtualPath: Bytes) returns (record: Option<Row>)
      ensures record == First(View(), FileAt(userId, virtualPath))
    {
      var result := RunQuery(FileAt(userId, virtualPath));
      return if |result| == 0 then None else Some(result[0]);
    }

    method GetDirId(userId: int, currentDir: Bytes) returns (id: int)
      ensures id == DirId(View(), userId, currentDir)
    {
      var result := RunQuery(DirectoryAt(userId, currentDir));
      return if |result| == 0 then -1 else result[0].id;
    }

    // ----- the handlers -----

    method HandleLogin(user: UserInfo)
      modifies this, user`currentDir
      ensures Effect(View(), user.currentDir, true) == Login(old(View()), old(user.View()))
    {
      user.currentDir := [SLASH] + user.username;
      var userId := UserId(View(), user.username);
      if userId > 0 {
        var records := ListRecords(userId, 0);
        assert records.Length == |records[..]|;
        if records.Length == 0 {
          assert records[..] == [];
          CreateRecord(DirectoryRow(userId, 0, [SLASH] + user.username, user.username));
        }
      }
    }

    method HandleCd(user: UserInfo, dir: Bytes) returns (ret: int)
      modifies user`currentDir
      ensures Effect(View(), user.currentDir, ret == 0) == Cd(View(), old(user.View()), dir)
    {
      var newPath := NormalizePath(user.currentDir, dir, user.username);
      var userId := UserId(View(), user.username);
      if userId < 0 {
        return -1;
      }
      var result := RunQuery(DirectoryAt(userId, newPath));
      if |result| == 0 {
        return -1;
      }
      user.currentDir := newPath;
      return 0;
    }

    method HandleMkdir(user: UserInfo, dir: Bytes) returns (ret: int)
      modifies this`rows, this`nextId
      ensures Effect(View(), user.currentDir, ret == 0) == Mkdir(old(View()), user.View(), dir)
    {
      var newPath := NormalizePath(user.currentDir, dir, user.username);
      var parentPath, dirname := ExtractParentAndDirname(newPath);
      var userId := UserId(View(), user.username);
      if userId < 0 {
        return -1;
      }
      var result := RunQuery(DirectoryAt(userId, parentPath));
      if |result| == 0 {
        return -1;
      }
      var parentId := result[0].id;
      CreateRecord(DirectoryRow(userId, parentId, newPath, dirname));
      return 0;
    }

    method HandleRmdir(user: UserInfo, dir: Bytes) returns (ret: int)
      modifies this`rows, user`currentDir
      ensures Effect(View(), user.currentDir, ret == 0) == Rmdir(old(View()), old(user.View()), dir)
    {
      var newPath := NormalizePath(user.currentDir, dir, user.username);
      var userId := UserId(View(), user.username);
      if userId < 0 {
        return -1;
      }
      var result := RunQuery(DirectoryAt(userId, newPath));
      if |result| == 0 {
        return -1;
      }
      var dirId := result[0].id;
      var children := RunQuery(ChildrenOf(userId, dirId));
      if |children| > 0 {
        return -1;
      }
      DeleteRecord(userId, dirId);
      if user.currentDir == newPath {
        var parentPath, dummy := ExtractParentAndDirname(newPath);
        user.currentDir := parentPath;
      }
      return 0;
    }

    method HandleRm(user: UserInfo, file: Bytes) returns (ret: int)
      modifies this`rows
      ensures Effect(View(), user.currentDir, ret == 0) == Rm(old(View()), user.View(), file)
    {
      var newPath := NormalizePath(user.currentDir, file, user.username);
      var userId := UserId(View(), user.username);
      if userId < 0 {
        return -1;
      }
      var result := RunQuery(FileAt(userId, newPath));
      if |result| == 0 {
        return -1;
      }
      DeleteRecord(userId, result[0].id);
      return 0;
    }

    /** The records `ls` sorts and lays out; no array when there is no such user or directory. */
    method HandleLs(user: UserInfo) returns (records: array?<Row>)
      ensures records != null <==> Listing(View(), user.View()).Some?
      ensures records != null ==> fresh(records) && records[..] == Listing(View(), user.View()).value
    {
      var userId := UserId(View(), user.username);
      if userId < 0 {
        return null;
      }
      var parentId := GetDirId(userId, user.currentDir);
      if parentId < 0 {
        return null;
      }
      records := ListRecords(userId, parentId);
    }

    method HandlePuts(user: UserInfo, c: Connection, filename: Bytes) returns (ret: int)
      modifies this, c`inbound
      ensures Effect(View(), user.currentDir, ret == 0)
              == Puts(old(View()), old(user.View()), filename, old(c.inbound))
      ensures ret == 0 ==> c.inbound == PutsRest(old(View()), filename, old(c.inbound))
    {
      var ok, fileSize, clientHash := ReceiveOffer(c, filename);
      if !ok {
        return -1;
      }
      var userId := UserId(View(), user.username);
      if userId < 0 {
        return -1;
      }
      var parentId := GetDirId(userId, user.currentDir);
      if parentId < 0 {
        parentId := 0;
      }
      var record := FileRow(userId, parentId, user.currentDir, filename, clientHash, fileSize);
      var existing := FindByHash(clientHash);
      if existing.Some? {
        CreateRecord(record);
        return 0;
      }
      var file := FileOf(outside, clientHash);
      if file == None {
        return -1;
      }
      var complete, content := ReceiveBlob(c, fileSize);
      blobs := blobs[file.value := content];
      if !complete {
        return -1;
      }
      CreateRecord(record);
      return 0;
    }

    /** From the command to the last byte sent; `found` tells whether there was a blob to serve. */
    method HandleGets(h: Hash, user: UserInfo, c: Connection, filename: Bytes)
      returns (found: bool, ended: bool, replied: bool)
      modifies c
      ensures old(c.outbound) <= c.outbound
      ensures found <==> GetsSource(View(), user.View(), filename).Some?
      ensures found ==>
                GetsReply(h, filename, GetsSource(View(), user.View(), filename).value, old(c.inbound)) ==
                if !ended then NeverEnds
                else if !replied then NoReply
                else Replied(c.outbound[|old(c.outbound)|..])
      ensures !found ==> c.inbound == old(c.inbound) && c.outbound == old(c.outbound)
    {
      var virtualPath := if user.currentDir == [SLASH] then [SLASH] + filename
                         else user.currentDir + [SLASH] + filename;
      var userId := UserId(View(), user.username);
      if userId < 0 {
        return false, true, false;
      }
      var record := GetRecordByPath(userId, virtualPath);
      if record == None {
        return false, true, false;
      }
      var file := FileOf(outside, record.value.sha256);
      if file == None || file.value !in blobs {
        return false, true, false;
      }
      found := true;
      ended, replied := GetsServer.HandleGets(h, c, filename, blobs[file.value]);
    }
  }
}
