/** Board records and what each SQL statement of the board store does to the
    `boards` table, with the SQLite plumbing stripped away. Timestamps are
    readings of an abstract clock that never goes backwards. */
module BoardRecords {

  datatype Option<+T> = None | Some(value: T) {
    /** The carried value, or `default` when there is none. */
    function GetOr(default: T): T {
      match this
      case Some(v) => v
      case None => default
    }
  }

  /** One row of `boards` without its key. `deleted_at` is never written and is not kept. */
  datatype Row = Row(boardName: string, coverImageName: Option<string>, createdAt: nat, updatedAt: nat)

  /** The `boards` table: primary key `board_id` to the rest of the row. */
  type Table = map<string, Row>

  /** A deserialized board record, as the store hands it out. */
  datatype BoardRecord = BoardRecord(
    boardId: string,
    boardName: string,
    coverImageName: Option<string>,
    createdAt: nat,
    updatedAt: nat)

  /** A patch: a `None` field is left as it is. */
  datatype BoardChanges = BoardChanges(boardName: Option<string>, coverImageName: Option<string>)

  /** What the store raises: the three record exceptions, and the raw
      database error that the listing re-raises unwrapped. */
  datatype StoreError = NotFound | SaveError | DeleteError | DatabaseError

  datatype Result<+T> = Ok(value: T) | Err(error: StoreError)

  /** One page of the listing, the echoed paging arguments and the row count. */
  datatype OffsetPage = OffsetPage(items: seq<BoardRecord>, offset: int, limit: int, total: nat)

  /** `UPDATE boards SET <column> = ? WHERE board_id = ?` for one column. */
  datatype Assignment = SetBoardName(name: string) | SetCoverImageName(image: string)

  function RecordOf(id: string, row: Row): BoardRecord {
    BoardRecord(id, row.boardName, row.coverImageName, row.createdAt, row.updatedAt)
  }

  /** Every row was created no later than it was last touched, and neither lies in the future. */
  predicate WellTimed(t: Table, now: nat) {
    forall id :: id in t ==> t[id].createdAt <= t[id].updatedAt <= now
  }

  /** Whether the database call numbered `failAt` (counting from 0, in the
      order an operation issues its calls) is one of the first `calls`. */
  predicate Faults(failAt: Option<nat>, calls: nat) {
    failAt.Some? && failAt.value < calls
  }

  /** The table after `INSERT OR IGNORE INTO boards (board_id, board_name)`
      at clock `now`: a new key gets a row whose other columns take their
      defaults; an existing key keeps its row. */
  function Inserted(t: Table, id: string, name: string, now: nat): (r: Table)
    ensures r.Keys == t.Keys + {id}
    ensures forall k :: k in t ==> r[k] == t[k]
    ensures id !in t ==> r[id] == Row(name, None, now, now) && |r| == |t| + 1
  {
    if id in t then t else t[id := Row(name, None, now, now)]
  }

  /** An insert stamped with the current clock keeps `created_at <= updated_at <= now`. */
  lemma InsertKeepsWellTimed(t: Table, id: string, name: string, now: nat)
    requires WellTimed(t, now)
    ensures WellTimed(Inserted(t, id, name, now), now)
  {
  }

  /** `DELETE ... WHERE board_id = id` removes at most that one row and keeps
      `created_at <= updated_at <= now` for the rest. */
  lemma DeleteKeepsWellTimed(t: Table, id: string, now: nat)
    requires WellTimed(t, now)
    ensures WellTimed(t - {id}, now)
    ensures (t - {id}).Keys == t.Keys - {id}
    ensures |t - {id}| == |t| - (if id in t then 1 else 0)
  {
    assert (t - {id}).Keys == t.Keys - {id};
    if id in t {
      assert t.Keys == (t.Keys - {id}) + {id};
    } else {
      assert t.Keys - {id} == t.Keys;
    }
  }

  /** One `UPDATE ... WHERE board_id = id` statement and the `AFTER UPDATE`
      trigger it fires on the row it matches, which stamps `updated_at`.
      When no row matches, nothing changes and the trigger does not fire. */
  function Assign(t: Table, id: string, a: Assignment, now: nat): (r: Table)
    ensures r.Keys == t.Keys
    ensures forall k :: k in t && k != id ==> r[k] == t[k]
    ensures id in t ==> r[id].createdAt == t[id].createdAt && r[id].updatedAt == now
  {
    if id !in t then t
    else
      var row := t[id];
      var written := match a
        case SetBoardName(n) => row.(boardName := n)
        case SetCoverImageName(c) => row.(coverImageName := Some(c));
      t[id := written.(updatedAt := now)]
  }

  /** The statements an update issues: one per field of the patch that is not `None`, name first. */
  function Statements(changes: BoardChanges): seq<Assignment> {
    (if changes.boardName.Some? then [SetBoardName(changes.boardName.value)] else [])
    + (if changes.coverImageName.Some? then [SetCoverImageName(changes.coverImageName.value)] else [])
  }

  function ApplyAll(t: Table, id: string, s: seq<Assignment>, now: nat): Table
    decreases |s|
  {
    if s == [] then t else ApplyAll(Assign(t, id, s[0], now), id, s[1..], now)
  }

  /** The table after all statements of an update have run, before the commit. */
  function Patched(t: Table, id: string, changes: BoardChanges, now: nat): Table {
    ApplyAll(t, id, Statements(changes), now)
  }

  /** An update is its name statement (when the patch has a name) followed
      by its cover statement (when the patch has a cover). */
  lemma PatchedInSteps(t: Table, id: string, c: BoardChanges, now: nat)
    ensures var t1 := if c.boardName.Some? then Assign(t, id, SetBoardName(c.boardName.value), now) else t;
      Patched(t, id, c, now) == if c.coverImageName.Some? then Assign(t1, id, SetCoverImageName(c.coverImageName.value), now) else t1
  {
    var s := Statements(c);
    if c.boardName.Some? && c.coverImageName.Some? {
      var t1 := Assign(t, id, s[0], now);
      var t2 := Assign(t1, id, s[1..][0], now);
      assert s[1..][1..] == [];
      calc {
        Patched(t, id, c, now);
        ApplyAll(t1, id, s[1..], now);
        ApplyAll(t2, id, s[1..][1..], now);
        t2;
      }
    } else if c.boardName.Some? || c.coverImageName.Some? {
      assert s[1..] == [];
      calc {
        Patched(t, id, c, now);
        ApplyAll(Assign(t, id, s[0], now), id, s[1..], now);
        Assign(t, id, s[0], now);
      }
    } else {
      assert Patched(t, id, c, now) == t;
    }
  }

  /** The row an update leaves behind: present fields overwrite, absent ones
      keep their value, and the trigger stamps `updated_at` iff some
      statement ran; every other row, and the set of keys, stay as they were. */
  lemma PatchedEffect(t: Table, id: string, c: BoardChanges, now: nat)
    ensures Patched(t, id, c, now).Keys == t.Keys
    ensures forall k :: k in t && k != id ==> Patched(t, id, c, now)[k] == t[k]
    ensures id in t ==> Patched(t, id, c, now)[id] == Row(
      c.boardName.GetOr(t[id].boardName),
      if c.coverImageName.Some? then c.coverImageName else t[id].coverImageName,
      t[id].createdAt,
      if c.boardName.None? && c.coverImageName.None? then t[id].updatedAt else now)
  {
    PatchedInSteps(t, id, c, now);
  }

  /** An all-`None` patch executes no statement: the table, `updated_at` included, is untouched. */
  lemma EmptyPatchChangesNothing(t: Table, id: string, now: nat)
    ensures Patched(t, id, BoardChanges(None, None), now) == t
  {
  }

  /** Updating a board that does not exist matches no row in either statement. */
  lemma PatchOfUnknownIdChangesNothing(t: Table, id: string, c: BoardChanges, now: nat)
    requires id !in t
    ensures Patched(t, id, c, now) == t
  {
    PatchedEffect(t, id, c, now);
  }

  /** A `None` cover in the patch cannot clear a cover the board already has. */
  lemma CoverIsNeverCleared(t: Table, id: string, c: BoardChanges, now: nat)
    requires id in t && t[id].coverImageName.Some?
    ensures id in Patched(t, id, c, now)
    ensures Patched(t, id, c, now)[id].coverImageName.Some?
  {
    PatchedEffect(t, id, c, now);
  }

  /** Renaming refreshes `updated_at` to the current clock, which is newer
      than before whenever the clock has moved since the last touch. */
  lemma RenameRefreshesUpdatedAt(t: Table, id: string, name: string, now: nat)
    requires id in t && t[id].updatedAt < now
    ensures id in Patched(t, id, BoardChanges(Some(name), None), now)
    ensures var r := Patched(t, id, BoardChanges(Some(name), None), now)[id];
      r.boardName == name && r.coverImageName == t[id].coverImageName && r.updatedAt > t[id].updatedAt
  {
    PatchedEffect(t, id, BoardChanges(Some(name), None), now);
  }

  /** Applying the same patch twice at one clock reading gives what applying it once gives. */
  lemma PatchIsIdempotent(t: Table, id: string, c: BoardChanges, now: nat)
    ensures Patched(Patched(t, id, c, now), id, c, now) == Patched(t, id, c, now)
  {
    var once := Patched(t, id, c, now);
    PatchedEffect(t, id, c, now);
    PatchedEffect(once, id, c, now);
  }

  /** No update ever breaks `created_at <= updated_at <= now`. */
  lemma PatchKeepsWellTimed(t: Table, id: string, c: BoardChanges, now: nat)
    requires WellTimed(t, now)
    ensures WellTimed(Patched(t, id, c, now), now)
  {
    PatchedEffect(t, id, c, now);
  }
}
