/** The SQLite-backed board record store. Its one piece of state, the
    `boards` table, is a map field that each public method changes as one
    atomic step (the store's lock serialises them). A method that writes
    keeps an image of the last committed table and restores it when one of
    its database calls fails, as the connection's rollback does.

    Database failures are an input: `failAt == Some(n)` makes the method's
    call number `n` (from 0, in the order the method issues them) raise. */
module BoardRecordStorage {
  import opened BoardRecords
  import opened BoardListing

  class BoardRecordStore {
    /** The `boards` table, as this connection sees it. */
    var table: Table
    /** The database clock that column defaults and the trigger read. */
    var now: nat

    ghost predicate Valid()
      reads this
    {
      WellTimed(table, now)
    }

    /** A store over a freshly created, empty `boards` table. */
    constructor (clock: nat)
      ensures Valid() && table == map[] && now == clock
    {
      table := map[];
      now := clock;
    }

    /** Time passes between calls; the table is not touched. */
    method AdvanceClock(elapsed: nat)
      requires Valid()
      modifies this
      ensures Valid() && table == old(table) && now == old(now) + elapsed
    {
      now := now + elapsed;
    }

    /** `save`: insert a board under the freshly generated `boardId`, commit,
        and read the row back. The key collides only if `boardId` is already
        in the table, in which case `INSERT OR IGNORE` keeps the old row and
        that is what is read back. A failure of the insert or of the commit is
        rolled back; a failure of the read-back comes after the commit, so the
        row stays although SaveError is raised. */
    method Save(boardId: string, boardName: string, failAt: Option<nat>) returns (r: Result<BoardRecord>)
      requires Valid()
      modifies this
      ensures Valid() && now == old(now)
      ensures Faults(failAt, 2) ==> table == old(table) && r == Err(SaveError)
      ensures !Faults(failAt, 2) ==> table == Inserted(old(table), boardId, boardName, now)
      ensures failAt == Some(2) ==> r == Err(SaveError)
      ensures !Faults(failAt, 3) ==> r == Ok(RecordOf(boardId, table[boardId]))
      ensures !Faults(failAt, 3) && boardId !in old(table) ==> r == Ok(BoardRecord(boardId, boardName, None, now, now))
      ensures !Faults(failAt, 3) && boardId in old(table) ==> r == Ok(RecordOf(boardId, old(table)[boardId]))
    {
      var committed := table;
      InsertKeepsWellTimed(committed, boardId, boardName, now);
      // call 0: INSERT OR IGNORE INTO boards (board_id, board_name) VALUES (?, ?)
      if failAt == Some(0) {
        table := committed;
        return Err(SaveError);
      }
      if boardId !in table {
        table := table[boardId := Row(boardName, None, now, now)];
      }
      assert table == Inserted(committed, boardId, boardName, now);
      // call 1: commit
      if failAt == Some(1) {
        table := committed;
        return Err(SaveError);
      }
      committed := table;
      // call 2: SELECT * FROM boards WHERE board_id = ?
      if failAt == Some(2) {
        table := committed;
        return Err(SaveError);
      }
      r := Ok(RecordOf(boardId, table[boardId]));
    }

    /** `get`: the stored record for `boardId`. A missing row and a failed
        lookup both raise NotFound. The table is only read. */
    method Get(boardId: string, failAt: Option<nat>) returns (r: Result<BoardRecord>)
      ensures r.Ok? <==> !Faults(failAt, 1) && boardId in table
      ensures r.Ok? ==> r.value == RecordOf(boardId, table[boardId])
      ensures r.Err? ==> r.error == NotFound
    {
      // call 0: SELECT * FROM boards WHERE board_id = ?
      if failAt == Some(0) {
        return Err(NotFound);
      }
      if boardId !in table {
        return Err(NotFound);
      }
      r := Ok(RecordOf(boardId, table[boardId]));
    }

    /** `update`: one `UPDATE` per field of the patch that is not `None`
        (name first), each firing the `updated_at` trigger on the row it
        matches, then one commit. A failure of any of these calls rolls the
        whole update back and raises SaveError. An unknown `boardId` matches
        no row and is not an error. */
    method Update(boardId: string, changes: BoardChanges, failAt: Option<nat>) returns (r: Result<()>)
      requires Valid()
      modifies this
      ensures Valid() && now == old(now)
      ensures Faults(failAt, |Statements(changes)| + 1) ==> table == old(table) && r == Err(SaveError)
      ensures !Faults(failAt, |Statements(changes)| + 1) ==>
        table == Patched(old(table), boardId, changes, now) && r == Ok(())
    {
      var committed := table;
      var call := 0;
      PatchedInSteps(committed, boardId, changes, now);
      PatchKeepsWellTimed(committed, boardId, changes, now);
      if changes.boardName.Some? {
        // UPDATE boards SET board_name = ? WHERE board_id = ?
        if failAt == Some(call) {
          table := committed;
          return Err(SaveError);
        }
        table := Assign(table, boardId, SetBoardName(changes.boardName.value), now);
        call := call + 1;
      }
      if changes.coverImageName.Some? {
        // UPDATE boards SET cover_image_name = ? WHERE board_id = ?
        if failAt == Some(call) {
          table := committed;
          return Err(SaveError);
        }
        table := Assign(table, boardId, SetCoverImageName(changes.coverImageName.value), now);
        call := call + 1;
      }
      // commit
      if failAt == Some(call) {
        table := committed;
        return Err(SaveError);
      }
      r := Ok(());
    }

    /** `delete`, as written: the parameters handed to the `DELETE` statement
        are the string `boardId` itself rather than a one-element tuple, so
        each of its characters is one binding. The statement has one
        placeholder, so any key that is not exactly one character long makes
        the call raise, which is rolled back and reported as DeleteError. */
    method Delete(boardId: string, failAt: Option<nat>) returns (r: Result<()>)
      requires Valid()
      modifies this
      ensures Valid() && now == old(now)
      ensures |boardId| != 1 || Faults(failAt, 2) ==> table == old(table) && r == Err(DeleteError)
      ensures |boardId| == 1 && !Faults(failAt, 2) ==> table == old(table) - {boardId} && r == Ok(())
    {
      var committed := table;
      // call 0: DELETE FROM boards WHERE board_id = ?, with parameters (board_id)
      var parameters := Characters(boardId);
      if |parameters| != 1 || failAt == Some(0) {
        table := committed;
        return Err(DeleteError);
      }
      assert parameters[0] == boardId;
      DeleteKeepsWellTimed(table, boardId, now);
      table := table - {parameters[0]};
      // call 1: commit
      if failAt == Some(1) {
        table := committed;
        return Err(DeleteError);
      }
      r := Ok(());
    }

    /** `delete` with the key bound as the statement's single parameter, as
        the interface intends: the row goes if it was there, and deleting a
        missing key is not an error. */
    method DeleteById(boardId: string, failAt: Option<nat>) returns (r: Result<()>)
      requires Valid()
      modifies this
      ensures Valid() && now == old(now)
      ensures Faults(failAt, 2) ==> table == old(table) && r == Err(DeleteError)
      ensures !Faults(failAt, 2) ==> table == old(table) - {boardId} && r == Ok(())
      ensures !Faults(failAt, 2) ==> boardId !in table && |table| == |old(table)| - (if boardId in old(table) then 1 else 0)
    {
      var committed := table;
      // call 0: DELETE FROM boards WHERE board_id = ?, with parameters (board_id,)
      var parameters := [boardId];
      if failAt == Some(0) {
        table := committed;
        return Err(DeleteError);
      }
      DeleteKeepsWellTimed(table, boardId, now);
      table := table - {parameters[0]};
      // call 1: commit
      if failAt == Some(1) {
        table := committed;
        return Err(DeleteError);
      }
      r := Ok(());
    }

    /** The rows of the table as `ORDER BY updated_at DESC` returns them:
        repeatedly the newest row not yet taken, ties broken arbitrarily. */
    method OrderByUpdatedAtDesc() returns (ordered: seq<BoardRecord>)
      ensures IsListing(ordered, table)
    {
      ordered := [];
      var rest := table.Keys;
      while rest != {}
        invariant rest <= table.Keys
        invariant RowsOf(ordered, table) && DistinctIds(ordered) && NewestFirst(ordered)
        invariant Ids(ordered) == table.Keys - rest
        invariant forall i, k :: 0 <= i < |ordered| && k in rest ==> table[k].updatedAt <= ordered[i].updatedAt
        decreases |rest|
      {
        NewestKeyExists(table, rest);
        var k :| k in rest && forall k' :: k' in rest ==> table[k'].updatedAt <= table[k].updatedAt;
        ExtendListing(ordered, table, rest, k);
        ordered := ordered + [RecordOf(k, table[k])];
        rest := rest - {k};
      }
    }

    /** `get_many`: the rows in `updated_at DESC` order (ties in whatever
        order the database picks), cut down by `LIMIT limit OFFSET offset`,
        plus `COUNT(*)` of the whole table. A failure of either query is
        re-raised as the raw database error. The table is only read. */
    method GetMany(offset: int := 0, limit: int := 10, failAt: Option<nat> := None) returns (r: Result<OffsetPage>)
      ensures r.Err? <==> Faults(failAt, 2)
      ensures r.Err? ==> r.error == DatabaseError
      ensures r.Ok? ==> r.value.offset == offset && r.value.limit == limit && r.value.total == |table|
      ensures r.Ok? ==> exists s :: IsListing(s, table) && r.value.items == Page(s, offset, limit)
      ensures r.Ok? ==> RowsOf(r.value.items, table) && DistinctIds(r.value.items) && NewestFirst(r.value.items)
      ensures r.Ok? && offset >= 0 && limit >= 0 ==>
        |r.value.items| == Min(limit, Max(0, r.value.total - offset))
    {
      // call 0: SELECT * FROM boards ORDER BY updated_at DESC LIMIT ? OFFSET ?
      if failAt == Some(0) {
        return Err(DatabaseError);
      }
      var ordered := OrderByUpdatedAtDesc();
      var items := Page(ordered, offset, limit);
      PageOfListing(ordered, table, offset, limit);
      // call 1: SELECT COUNT(*) FROM boards
      if failAt == Some(1) {
        return Err(DatabaseError);
      }
      r := Ok(OffsetPage(items, offset, limit, |table|));
    }
  }

  /** A string handed to the database driver as a parameter sequence: one
      single-character string per character. */
  function Characters(s: string): (p: seq<string>)
    ensures |p| == |s|
    ensures forall i :: 0 <= i < |p| ==> p[i] == [s[i]]
  {
    seq(|s|, i requires 0 <= i < |s| => [s[i]])
  }

  /** A board saved under a UUID key: `delete` as written cannot remove it
      (36 bindings for one placeholder), so it is still found afterwards;
      `DeleteById` removes it. */
  method UuidBoardSurvivesDelete() returns (deleted: Result<()>, after: Result<BoardRecord>, fixedDelete: Result<()>, afterFix: Result<BoardRecord>)
    ensures deleted == Err(DeleteError)
    ensures after.Ok? && after.value.boardName == "Favourites"
    ensures fixedDelete == Ok(()) && afterFix == Err(NotFound)
  {
    var store := new BoardRecordStore(0);
    var id := "3f2a9c1e-8b7d-4e6f-a5c4-1d2e3f4a5b6c";
    var saved := store.Save(id, "Favourites", None);
    deleted := store.Delete(id, None);
    after := store.Get(id, None);
    fixedDelete := store.DeleteById(id, None);
    afterFix := store.Get(id, None);
  }

  /** Reading a board right after saving it returns the record `save`
      returned: the given name, no cover, and both timestamps equal to the
      clock at the save. */
  method SaveThenGet(boardId: string, boardName: string, clock: nat) returns (saved: Result<BoardRecord>, fetched: Result<BoardRecord>)
    ensures saved.Ok? && fetched == saved
    ensures saved.value == BoardRecord(boardId, boardName, None, clock, clock)
  {
    var store := new BoardRecordStore(clock);
    saved := store.Save(boardId, boardName, None);
    fetched := store.Get(boardId, None);
  }

  /** Renaming a board after the clock has moved: the name changes, the
      cover stays, and `updated_at` moves past `created_at`. */
  method RenameThenGet(boardId: string, first: string, second: string, elapsed: nat) returns (fetched: Result<BoardRecord>)
    requires elapsed > 0
    ensures fetched.Ok? && fetched.value.boardName == second && fetched.value.coverImageName == None
    ensures fetched.value.updatedAt > fetched.value.createdAt
  {
    var store := new BoardRecordStore(0);
    var saved := store.Save(boardId, first, None);
    store.AdvanceClock(elapsed);
    var updated := store.Update(boardId, BoardChanges(Some(second), None), None);
    PatchedEffect(map[boardId := Row(first, None, 0, 0)], boardId, BoardChanges(Some(second), None), elapsed);
    fetched := store.Get(boardId, None);
  }

  /** `get_many()` with its default arguments on an empty store: the first
      page of at most 10 boards, which is empty, with a count of 0. */
  method DefaultPageOfEmptyStore() returns (r: Result<OffsetPage>)
    ensures r == Ok(OffsetPage([], 0, 10, 0))
  {
    var store := new BoardRecordStore(0);
    r := store.GetMany();
    ghost var s :| IsListing(s, store.table) && r.value.items == Page(s, 0, 10);
    ListingLength(s, store.table);
  }
}
