/** The file table: rows in order of their AUTO_INCREMENT ids, and its queries. */
module Table {
  import opened Wire

  datatype Kind = File | Directory

  datatype Row = Row(
    id: int,
    filename: Bytes,
    userId: int,
    parentId: int,
    path: Bytes,
    kind: Kind,
    sha256: Bytes,
    filesize: int)

  /** The WHERE clauses in use. */
  datatype Query =
    | DirectoryAt(userId: int, path: Bytes)
    | FileAt(userId: int, path: Bytes)
    | ChildrenOf(userId: int, parentId: int)
    | WithHash(sha256: Bytes)
    | OwnedBy(userId: int)

  predicate Matches(q: Query, r: Row) {
    match q
    case DirectoryAt(userId, path) => r.userId == userId && r.path == path && r.kind == Directory
    case FileAt(userId, path) => r.userId == userId && r.path == path && r.kind == File
    case ChildrenOf(userId, parentId) => r.userId == userId && r.parentId == parentId
    case WithHash(sha256) => r.sha256 == sha256
    case OwnedBy(userId) => r.userId == userId
  }

  /** The result set of a query, in the order of the rows. */
  function Select(rows: seq<Row>, q: Query): (result: seq<Row>)
    ensures forall r :: r in result <==> r in rows && Matches(q, r)
  {
    if rows == [] then []
    else
      var init, last := rows[..|rows| - 1], rows[|rows| - 1];
      assert rows == init + [last];
      if Matches(q, last) then Select(init, q) + [last] else Select(init, q)
  }

  function FirstOf(rows: seq<Row>, q: Query): Option<Row> {
    var result := Select(rows, q);
    if result == [] then None else Some(result[0])
  }

  /** DELETE ... WHERE id = id AND user_id = userId. */
  function Deleted(rows: seq<Row>, userId: int, id: int): (result: seq<Row>)
    ensures forall r :: r in result <==> r in rows && !(r.id == id && r.userId == userId)
  {
    if rows == [] then []
    else
      var init, last := rows[..|rows| - 1], rows[|rows| - 1];
      assert rows == init + [last];
      if last.id == id && last.userId == userId then Deleted(init, userId, id)
      else Deleted(init, userId, id) + [last]
  }

  ghost predicate IdsIncrease(rows: seq<Row>, nextId: int) {
    && 1 <= nextId
    && (forall i | 0 <= i < |rows| :: 1 <= rows[i].id < nextId)
    && (forall i, j | 0 <= i < j < |rows| :: rows[i].id < rows[j].id)
  }

  // ----- queries on a changed table -----

  lemma SelectAppend(rows: seq<Row>, r: Row, q: Query)
    ensures Select(rows + [r], q) == Select(rows, q) + if Matches(q, r) then [r] else []
  {
    assert (rows + [r])[..|rows|] == rows;
  }

  lemma {:induction false} SelectNothing(rows: seq<Row>, q: Query)
    requires forall r | r in rows :: !Matches(q, r)
    ensures Select(rows, q) == []
  {
    if rows != [] {
      SelectNothing(rows[..|rows| - 1], q);
    }
  }

  lemma DeletedAppend(rows: seq<Row>, r: Row, userId: int, id: int)
    ensures Deleted(rows + [r], userId, id)
         == Deleted(rows, userId, id) + if r.id == id && r.userId == userId then [] else [r]
  {
    assert (rows + [r])[..|rows|] == rows;
  }

  lemma {:induction false} SelectDeleted(rows: seq<Row>, userId: int, id: int, q: Query)
    ensures Select(Deleted(rows, userId, id), q) == Deleted(Select(rows, q), userId, id)
  {
    if rows != [] {
      var init, last := rows[..|rows| - 1], rows[|rows| - 1];
      SelectDeleted(init, userId, id, q);
      SelectAppend(Deleted(init, userId, id), last, q);
      DeletedAppend(Select(init, q), last, userId, id);
    }
  }

  lemma {:induction false} SelectIncreases(rows: seq<Row>, nextId: int, q: Query)
    requires IdsIncrease(rows, nextId)
    ensures IdsIncrease(Select(rows, q), nextId)
  {
    if rows != [] {
      var init, last := rows[..|rows| - 1], rows[|rows| - 1];
      SelectIncreases(init, nextId, q);
      var result := Select(init, q);
      forall i | 0 <= i < |result|
        ensures result[i].id < last.id
      {
        assert result[i] in init;
      }
    }
  }

  lemma {:induction false} DeletedIncreases(rows: seq<Row>, nextId: int, userId: int, id: int)
    requires IdsIncrease(rows, nextId)
    ensures IdsIncrease(Deleted(rows, userId, id), nextId)
  {
    if rows != [] {
      var init, last := rows[..|rows| - 1], rows[|rows| - 1];
      DeletedIncreases(init, nextId, userId, id);
      var result := Deleted(init, userId, id);
      forall i | 0 <= i < |result|
        ensures result[i].id < last.id
      {
        assert result[i] in init;
      }
    }
  }

  lemma {:induction false} DeletedNothing(rows: seq<Row>, userId: int, id: int)
    requires forall r | r in rows :: !(r.id == id && r.userId == userId)
    ensures Deleted(rows, userId, id) == rows
  {
    if rows != [] {
      var init, last := rows[..|rows| - 1], rows[|rows| - 1];
      assert rows == init + [last];
      assert last in rows && forall r | r in init :: r in rows;
      DeletedNothing(init, userId, id);
    }
  }

  lemma IdsAreUnique(rows: seq<Row>, nextId: int, r: Row, q: Row)
    requires IdsIncrease(rows, nextId) && r in rows && q in rows && r.id == q.id
    ensures r == q
  {
  }

  lemma {:induction false} DeletedConcat(a: seq<Row>, b: seq<Row>, userId: int, id: int)
    ensures Deleted(a + b, userId, id) == Deleted(a, userId, id) + Deleted(b, userId, id)
  {
    if b == [] {
      assert a + b == a;
    } else {
      hide Deleted;
      var init, last := b[..|b| - 1], b[|b| - 1];
      DeletedConcat(a, init, userId, id);
      DeletedAppend(a + init, last, userId, id);
      DeletedAppend(init, last, userId, id);
      Assoc(a, init, [last]);
      Assoc(Deleted(a, userId, id), Deleted(init, userId, id),
                if last.id == id && last.userId == userId then [] else [last]);
      assert b == init + [last];
    }
  }

  /** Deleting a row by its id removes just that row. */
  lemma DeletedOne(rows: seq<Row>, nextId: int, i: nat)
    requires IdsIncrease(rows, nextId) && i < |rows|
    ensures Deleted(rows, rows[i].userId, rows[i].id) == rows[..i] + rows[i + 1..]
  {
    hide Deleted, IdsIncrease;
    var r, above, below := rows[i], rows[..i], rows[i + 1..];
    assert rows == above + ([r] + below);
    DeletedConcat(above, [r] + below, r.userId, r.id);
    DeletedConcat([r], below, r.userId, r.id);
    DeletedAlone(r);
    IdsElsewhere(rows, nextId, i);
    DeletedNothing(above, r.userId, r.id);
    DeletedNothing(below, r.userId, r.id);
    assert [] + below == below;
  }

  lemma IdsElsewhere(rows: seq<Row>, nextId: int, i: nat)
    requires IdsIncrease(rows, nextId) && i < |rows|
    ensures forall q | q in rows[..i] :: q.id < rows[i].id
    ensures forall q | q in rows[i + 1..] :: q.id > rows[i].id
  {
  }

  lemma DeletedAlone(r: Row)
    ensures Deleted([r], r.userId, r.id) == []
  {
    DeletedAppend([], r, r.userId, r.id);
    assert [] + [r] == [r];
  }

  lemma DeletedFirst(rows: seq<Row>, nextId: int)
    requires IdsIncrease(rows, nextId) && rows != []
    ensures Deleted(rows, rows[0].userId, rows[0].id) == rows[1..]
  {
    DeletedOne(rows, nextId, 0);
    assert rows[..0] + rows[1..] == rows[1..];
  }

  lemma {:induction false} DeletedKeepsFirst(rows: seq<Row>, userId: int, id: int)
    requires rows != [] && !(rows[0].id == id && rows[0].userId == userId)
    ensures Deleted(rows, userId, id) != [] && Deleted(rows, userId, id)[0] == rows[0]
  {
    if |rows| > 1 {
      DeletedKeepsFirst(rows[..|rows| - 1], userId, id);
    } else {
      assert rows[..0] == [];
    }
  }

  /** The first row of a result set is the one with the lowest id. */
  lemma FirstHasLowestId(rows: seq<Row>, nextId: int, q: Query, r: Row)
    requires IdsIncrease(rows, nextId) && r in rows && Matches(q, r)
    ensures Select(rows, q) != [] && Select(rows, q)[0].id <= r.id
  {
    SelectIncreases(rows, nextId, q);
    assert r in Select(rows, q);
  }
}
