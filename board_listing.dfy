/** The listing query `SELECT * FROM boards ORDER BY updated_at DESC LIMIT ? OFFSET ?`
    and the `COUNT(*)` beside it: which sequences of records are valid
    answers, and how a page is cut out of one. */
module BoardListing {
  import opened BoardRecords

  /** The keys that occur in a sequence of records. */
  ghost function Ids(s: seq<BoardRecord>): set<string> {
    set i | 0 <= i < |s| :: s[i].boardId
  }

  ghost predicate DistinctIds(s: seq<BoardRecord>) {
    forall i, j :: 0 <= i < j < |s| ==> s[i].boardId != s[j].boardId
  }

  /** Every record is the table's row for its key, as the store would read it. */
  ghost predicate RowsOf(s: seq<BoardRecord>, t: Table) {
    forall i :: 0 <= i < |s| ==> s[i].boardId in t && s[i] == RecordOf(s[i].boardId, t[s[i].boardId])
  }

  /** `ORDER BY updated_at DESC`; rows with equal `updated_at` may come in any order. */
  ghost predicate NewestFirst(s: seq<BoardRecord>) {
    forall i, j :: 0 <= i < j < |s| ==> s[i].updatedAt >= s[j].updatedAt
  }

  /** `s` is one of the orders in which the whole table can come back from the query. */
  ghost predicate IsListing(s: seq<BoardRecord>, t: Table) {
    RowsOf(s, t) && DistinctIds(s) && Ids(s) == t.Keys && NewestFirst(s)
  }

  /** `p` is what `LIMIT limit OFFSET offset` can return for the table `t`:
      the page of some newest-first ordering of all its rows. */
  ghost predicate IsPageOf(p: seq<BoardRecord>, t: Table, offset: int, limit: int) {
    exists s :: IsListing(s, t) && p == Page(s, offset, limit)
  }

  /** No two rows share an `updated_at`, so `ORDER BY updated_at DESC` leaves nothing to chance. */
  ghost predicate DistinctTimes(t: Table) {
    forall a, b :: a in t && b in t && a != b ==> t[a].updatedAt != t[b].updatedAt
  }

  function Min(a: int, b: int): int { if a <= b then a else b }

  function Max(a: int, b: int): int { if a <= b then b else a }

  /** `LIMIT limit OFFSET offset` applied to the ordered rows `s`. SQLite
      reads a negative OFFSET as zero and a negative LIMIT as no bound. */
  function Page<T>(s: seq<T>, offset: int, limit: int): seq<T> {
    var start := if offset <= 0 then 0 else if offset < |s| then offset else |s|;
    var end := if limit < 0 || |s| - start <= limit then |s| else start + limit;
    s[start..end]
  }

  /** With non-negative arguments a page holds `min(limit, max(0, |s| - offset))`
      rows: row `offset + i` of the ordered rows is item `i` of the page. */
  lemma PageContents<T>(s: seq<T>, offset: int, limit: int)
    requires offset >= 0 && limit >= 0
    ensures |Page(s, offset, limit)| == Min(limit, Max(0, |s| - offset))
    ensures forall i :: 0 <= i < |Page(s, offset, limit)| ==> Page(s, offset, limit)[i] == s[offset + i]
  {
  }

  /** A negative LIMIT imposes no bound and a negative OFFSET skips nothing. */
  lemma NegativeArguments<T>(s: seq<T>, offset: int, limit: int)
    ensures limit < 0 ==> Page(s, offset, limit) == Page(s, offset, |s|)
    ensures offset < 0 ==> Page(s, offset, limit) == Page(s, 0, limit)
  {
  }

  /** Two adjacent pages together are the page that spans both. */
  lemma AdjacentPages<T>(s: seq<T>, offset: nat, a: nat, b: nat)
    ensures Page(s, offset, a) + Page(s, offset + a, b) == Page(s, offset, a + b)
  {
  }

  /** The pages a caller fetches while advancing `offset` by `limit` until it passes the end. */
  ghost function PagesFrom<T>(s: seq<T>, offset: nat, limit: nat): seq<T>
    requires limit > 0
    decreases |s| - offset
  {
    if offset >= |s| then [] else Page(s, offset, limit) + PagesFrom(s, offset + limit, limit)
  }

  /** Walking the pages from offset 0 returns every row exactly once, in listing order. */
  lemma {:induction false} PagingVisitsEveryRowOnce<T>(s: seq<T>, offset: nat, limit: nat)
    requires limit > 0 && offset <= |s|
    ensures PagesFrom(s, offset, limit) == s[offset..]
    decreases |s| - offset
  {
    if offset < |s| {
      if offset + limit <= |s| {
        PagingVisitsEveryRowOnce(s, offset + limit, limit);
        assert s[offset..] == s[offset..offset + limit] + s[offset + limit..];
      } else {
        assert PagesFrom(s, offset + limit, limit) == [];
      }
    }
  }

  /** Appending a record adds its key to the keys of the sequence. */
  lemma IdsAppend(s: seq<BoardRecord>, r: BoardRecord)
    ensures Ids(s + [r]) == Ids(s) + {r.boardId}
  {
    var s' := s + [r];
    forall x | x in Ids(s') ensures x in Ids(s) + {r.boardId} {
      var i :| 0 <= i < |s'| && s'[i].boardId == x;
      if i < |s| { assert s'[i] == s[i]; }
    }
    forall x | x in Ids(s) ensures x in Ids(s') {
      var i :| 0 <= i < |s| && s[i].boardId == x;
      assert s'[i] == s[i];
    }
    assert s'[|s|] == r;
  }

  /** Distinct keys make as many keys as records. */
  lemma {:induction false} IdsCardinality(s: seq<BoardRecord>)
    requires DistinctIds(s)
    ensures |Ids(s)| == |s|
  {
    if s != [] {
      var p := s[..|s| - 1];
      var last := s[|s| - 1].boardId;
      assert DistinctIds(p);
      IdsCardinality(p);
      assert s == p + [s[|s| - 1]];
      IdsAppend(p, s[|s| - 1]);
      assert last !in Ids(p);
    }
  }

  /** A listing holds exactly as many records as the table has rows, so it
      agrees with `SELECT COUNT(*) FROM boards`. */
  lemma ListingLength(s: seq<BoardRecord>, t: Table)
    requires IsListing(s, t)
    ensures |s| == |t|
  {
    IdsCardinality(s);
    assert |t.Keys| == |t|;
  }

  /** A page of a listing is made of table rows, each at most once, newest
      first, and with non-negative arguments holds
      `min(limit, max(0, total - offset))` of them. */
  lemma PageOfListing(s: seq<BoardRecord>, t: Table, offset: int, limit: int)
    requires IsListing(s, t)
    ensures RowsOf(Page(s, offset, limit), t)
    ensures DistinctIds(Page(s, offset, limit))
    ensures NewestFirst(Page(s, offset, limit))
    ensures offset >= 0 && limit >= 0 ==> |Page(s, offset, limit)| == Min(limit, Max(0, |t| - offset))
  {
    ListingLength(s, t);
  }

  /** Every row of an earlier page is at least as recent as every row of a later page. */
  lemma EarlierPagesAreNewer(s: seq<BoardRecord>, o1: nat, l1: nat, o2: nat, l2: nat)
    requires NewestFirst(s) && o1 + l1 <= o2
    ensures forall i, j :: 0 <= i < |Page(s, o1, l1)| && 0 <= j < |Page(s, o2, l2)| ==>
      Page(s, o1, l1)[i].updatedAt >= Page(s, o2, l2)[j].updatedAt
  {
  }

  /** A board whose `updated_at` is the newest in the table heads every
      listing, up to ties: the first item carries that same timestamp. */
  lemma NewestRowComesFirst(s: seq<BoardRecord>, t: Table, id: string)
    requires IsListing(s, t) && id in t
    requires forall k :: k in t ==> t[k].updatedAt <= t[id].updatedAt
    ensures |s| > 0 && s[0].updatedAt == t[id].updatedAt
  {
  }

  /** Appending the newest of the keys not yet listed keeps a partial
      listing in order and free of repeated keys. */
  lemma ExtendListing(s: seq<BoardRecord>, t: Table, rest: set<string>, k: string)
    requires rest <= t.Keys && k in rest
    requires RowsOf(s, t) && DistinctIds(s) && NewestFirst(s) && Ids(s) == t.Keys - rest
    requires forall i, k' :: 0 <= i < |s| && k' in rest ==> t[k'].updatedAt <= s[i].updatedAt
    requires forall k' :: k' in rest ==> t[k'].updatedAt <= t[k].updatedAt
    ensures var s' := s + [RecordOf(k, t[k])];
      RowsOf(s', t) && DistinctIds(s') && NewestFirst(s') && Ids(s') == t.Keys - (rest - {k}) &&
      forall i, k' :: 0 <= i < |s'| && k' in rest - {k} ==> t[k'].updatedAt <= s'[i].updatedAt
  {
    var s' := s + [RecordOf(k, t[k])];
    IdsAppend(s, RecordOf(k, t[k]));
    assert k !in Ids(s);
    forall i, j | 0 <= i < j < |s'| ensures s'[i].boardId != s'[j].boardId {
      if j == |s| {
        assert s'[i].boardId == s[i].boardId;
        assert s[i].boardId in Ids(s);
      }
    }
  }

  /** A board that was just saved carries the current clock, so it heads
      every listing of the table that contains it (up to ties). */
  lemma SavedBoardHeadsListing(s: seq<BoardRecord>, t: Table, id: string, name: string, now: nat)
    requires WellTimed(t, now) && id !in t
    requires IsListing(s, Inserted(t, id, name, now))
    ensures |s| > 0 && s[0].updatedAt == now
  {
  }

  /** Some row of a non-empty set of keys is at least as recent as every other. */
  lemma {:induction false} NewestKeyExists(t: Table, keys: set<string>)
    requires keys != {} && keys <= t.Keys
    ensures exists k :: k in keys && forall k' :: k' in keys ==> t[k'].updatedAt <= t[k].updatedAt
    decreases keys
  {
    var x :| x in keys;
    if keys != {x} {
      NewestKeyExists(t, keys - {x});
      var y :| y in keys - {x} && forall k' :: k' in keys - {x} ==> t[k'].updatedAt <= t[y].updatedAt;
      if t[x].updatedAt <= t[y].updatedAt {
        assert forall k' :: k' in keys ==> t[k'].updatedAt <= t[y].updatedAt;
      } else {
        assert forall k' :: k' in keys ==> t[k'].updatedAt <= t[x].updatedAt;
      }
    } else {
      assert forall k' :: k' in keys ==> t[k'].updatedAt <= t[x].updatedAt;
    }
  }

  /** After 15 boards are saved, the page at offset 0 of limit 10 holds 10
      of them and the page at offset 10 the remaining 5, together the whole
      listing. */
  lemma FifteenBoardsInTwoPages(s: seq<BoardRecord>, t: Table)
    requires IsListing(s, t) && |t| == 15
    ensures |Page(s, 0, 10)| == 10 && |Page(s, 10, 10)| == 5
    ensures Page(s, 0, 10) + Page(s, 10, 10) == s
  {
    ListingLength(s, t);
  }

  /** Dropping the head of a listing leaves a listing of the other rows. */
  lemma ListingTail(s: seq<BoardRecord>, t: Table)
    requires IsListing(s, t) && |s| > 0
    ensures IsListing(s[1..], t - {s[0].boardId})
  {
    var id := s[0].boardId;
    var rest := s[1..];
    var t' := t - {id};
    assert RowsOf(rest, t') by {
      forall i | 0 <= i < |rest| ensures rest[i].boardId in t' && rest[i] == RecordOf(rest[i].boardId, t'[rest[i].boardId]) {
        assert rest[i] == s[i + 1];
      }
    }
    assert DistinctIds(rest) && NewestFirst(rest) by {
      forall i, j | 0 <= i < j < |rest| ensures rest[i].boardId != rest[j].boardId && rest[i].updatedAt >= rest[j].updatedAt {
        assert rest[i] == s[i + 1] && rest[j] == s[j + 1];
      }
    }
    assert Ids(rest) == t'.Keys by {
      forall x | x in Ids(rest) ensures x in t'.Keys {
        var i :| 0 <= i < |rest| && rest[i].boardId == x;
        assert rest[i] == s[i + 1];
      }
      forall x | x in t'.Keys ensures x in Ids(rest) {
        assert x in Ids(s);
        var i :| 0 <= i < |s| && s[i].boardId == x;
        assert rest[i - 1] == s[i];
      }
    }
  }

  /** Without ties, two listings of one table start with the same board:
      the newest one. */
  lemma SameHeadWithoutTies(s1: seq<BoardRecord>, s2: seq<BoardRecord>, t: Table)
    requires IsListing(s1, t) && IsListing(s2, t) && DistinctTimes(t) && |s1| > 0 && |s2| > 0
    ensures s1[0] == s2[0]
  {
    var id1, id2 := s1[0].boardId, s2[0].boardId;
    assert id1 in Ids(s2);
    var j :| 0 <= j < |s2| && s2[j].boardId == id1;
    assert id2 in Ids(s1);
    var i :| 0 <= i < |s1| && s1[i].boardId == id2;
    assert t[id1].updatedAt == t[id2].updatedAt;
  }

  /** Without ties in `updated_at` a table has exactly one listing, so
      every query sees its rows in the same order. */
  lemma {:induction false} ListingIsUniqueWithoutTies(s1: seq<BoardRecord>, s2: seq<BoardRecord>, t: Table)
    requires IsListing(s1, t) && IsListing(s2, t) && DistinctTimes(t)
    ensures s1 == s2
    decreases |s1|
  {
    ListingLength(s1, t);
    ListingLength(s2, t);
    if |s1| > 0 {
      SameHeadWithoutTies(s1, s2, t);
      var t' := t - {s1[0].boardId};
      ListingTail(s1, t);
      ListingTail(s2, t);
      assert DistinctTimes(t');
      ListingIsUniqueWithoutTies(s1[1..], s2[1..], t');
      assert s1 == [s1[0]] + s1[1..] && s2 == [s2[0]] + s2[1..];
    }
  }

  /** The pages a caller collected, one after another. */
  function Concat<T>(pages: seq<seq<T>>): seq<T> {
    if pages == [] then [] else pages[0] + Concat(pages[1..])
  }

  lemma MulStep(k: nat, limit: nat)
    ensures (k + 1) * limit == k * limit + limit
  {
  }

  /** `pages` are the pages of `s` at offsets `offset`, `offset + limit`,
      ... up to the first offset at or past the end of `s`. */
  ghost predicate PagedFrom<T>(pages: seq<seq<T>>, s: seq<T>, offset: nat, limit: nat)
    decreases |pages|
  {
    if pages == [] then offset >= |s|
    else pages[0] == Page(s, offset, limit) && PagedFrom(pages[1..], s, offset + limit, limit)
  }

  /** Page `k` of `pages` is the page of `s` at offset `offset + k * limit`. */
  ghost predicate PagesAt<T>(pages: seq<seq<T>>, s: seq<T>, offset: nat, limit: nat) {
    forall k :: 0 <= k < |pages| ==> pages[k] == Page(s, offset + k * limit, limit)
  }

  /** Page `k` taken at offset `offset + k * limit`, with enough pages to reach the end. */
  lemma {:induction false} PagedFromOffsets<T>(s: seq<T>, pages: seq<seq<T>>, offset: nat, limit: nat)
    requires limit > 0 && offset + |pages| * limit >= |s|
    requires PagesAt(pages, s, offset, limit)
    ensures PagedFrom(pages, s, offset, limit)
    decreases |pages|
  {
    if pages != [] {
      var rest := pages[1..];
      assert offset + limit + |rest| * limit >= |s| by {
        MulStep(|rest|, limit);
      }
      assert PagesAt(rest, s, offset + limit, limit) by {
        forall k | 0 <= k < |rest| ensures rest[k] == Page(s, offset + limit + k * limit, limit) {
          assert rest[k] == pages[k + 1];
          MulStep(k, limit);
        }
      }
      PagedFromOffsets(s, rest, offset + limit, limit);
    }
  }

  /** Pages of one ordering that reach past its end together hold every row from `offset` on. */
  lemma {:induction false} ConcatOfPages<T>(s: seq<T>, pages: seq<seq<T>>, offset: nat, limit: nat)
    requires PagedFrom(pages, s, offset, limit)
    ensures Concat(pages) == s[(if offset <= |s| then offset else |s|)..]
    decreases |pages|
  {
    if pages != [] {
      var rest := pages[1..];
      ConcatOfPages(s, rest, offset + limit, limit);
      if offset < |s| {
        var mid := if offset + limit <= |s| then offset + limit else |s|;
        calc {
          Concat(pages);
          pages[0] + Concat(rest);
          { assert pages[0] == Page(s, offset, limit) == s[offset..mid]; }
          s[offset..mid] + s[mid..];
          { assert s[offset..mid] + s[mid..] == s[offset..]; }
          s[offset..];
        }
      } else {
        calc {
          Concat(pages);
          pages[0] + Concat(rest);
          { assert pages[0] == Page(s, offset, limit) == []; }
          [] + s[|s|..];
          s[|s|..];
        }
      }
    }
  }

  /** Without ties, pages that separate queries return at offsets 0, `limit`,
      `2 * limit`, ... are cut from one and the same ordering `s0`, so when
      they reach past the last row they add up to `s0`. */
  lemma PagesShareOneListing(t: Table, pages: seq<seq<BoardRecord>>, s0: seq<BoardRecord>, limit: nat)
    requires DistinctTimes(t) && IsListing(s0, t) && limit > 0 && |pages| * limit >= |t|
    requires forall k :: 0 <= k < |pages| ==> IsPageOf(pages[k], t, k * limit, limit)
    ensures Concat(pages) == s0
  {
    PagesAgree(t, pages, s0, limit);
    ListingLength(s0, t);
    assert 0 + |pages| * limit >= |s0|;
    PagedFromOffsets(s0, pages, 0, limit);
    ConcatOfPages(s0, pages, 0, limit);
    assert s0[0..] == s0;
  }

  lemma PagesAgree(t: Table, pages: seq<seq<BoardRecord>>, s0: seq<BoardRecord>, limit: nat)
    requires DistinctTimes(t) && IsListing(s0, t)
    requires forall k :: 0 <= k < |pages| ==> IsPageOf(pages[k], t, k * limit, limit)
    ensures PagesAt(pages, s0, 0, limit)
  {
    forall k | 0 <= k < |pages| ensures pages[k] == Page(s0, 0 + k * limit, limit) {
      var sk :| IsListing(sk, t) && pages[k] == Page(sk, k * limit, limit);
      ListingIsUniqueWithoutTies(sk, s0, t);
    }
  }

  /** Pages fetched by separate queries, advancing `offset` by `limit` from 0
      past the last row: when no two boards share an `updated_at`, together
      they list every board exactly once, newest first. */
  lemma PagesOfSeparateQueriesWithoutTies(t: Table, pages: seq<seq<BoardRecord>>, limit: nat)
    requires DistinctTimes(t) && limit > 0 && |pages| * limit >= |t|
    requires forall k :: 0 <= k < |pages| ==> IsPageOf(pages[k], t, k * limit, limit)
    ensures IsListing(Concat(pages), t)
  {
    if pages == [] {
      assert t.Keys == {} by { assert |t.Keys| == |t| == 0; }
      assert Ids([]) == {};
    } else {
      assert IsPageOf(pages[0], t, 0 * limit, limit);
      var s0 :| IsListing(s0, t);
      PagesShareOneListing(t, pages, s0, limit);
    }
  }

  /** With 15 boards and no two sharing an `updated_at`, the query at offset 0
      with limit 10 returns 10 of them and a separate query at offset 10
      the other 5. */
  lemma FifteenBoardsInTwoQueries(t: Table, first: seq<BoardRecord>, second: seq<BoardRecord>)
    requires DistinctTimes(t) && |t| == 15
    requires IsPageOf(first, t, 0, 10) && IsPageOf(second, t, 10, 10)
    ensures |first| == 10 && |second| == 5
    ensures IsListing(first + second, t)
  {
    var s1 :| IsListing(s1, t) && first == Page(s1, 0, 10);
    var s2 :| IsListing(s2, t) && second == Page(s2, 10, 10);
    ListingIsUniqueWithoutTies(s1, s2, t);
    FifteenBoardsInTwoPages(s1, t);
  }

  /** Two boards touched at the same clock reading: both orders are valid
      answers, so a query for page 1 and a separate query for page 2 (limit
      1) may return the same board twice and never the other. */
  lemma TiedBoardsCanRepeatAcrossQueries(t: Table, a: BoardRecord, b: BoardRecord)
    requires t.Keys == {a.boardId, b.boardId} && a.boardId != b.boardId
    requires RecordOf(a.boardId, t[a.boardId]) == a && RecordOf(b.boardId, t[b.boardId]) == b
    requires a.updatedAt == b.updatedAt
    ensures IsPageOf([a], t, 0, 1) && IsPageOf([a], t, 1, 1)
  {
    TwoRowListing(t, a, b);
    TwoRowListing(t, b, a);
    assert Page([a, b], 0, 1) == [a];
    assert Page([b, a], 1, 1) == [a];
  }

  lemma TwoRowListing(t: Table, x: BoardRecord, y: BoardRecord)
    requires t.Keys == {x.boardId, y.boardId} && x.boardId != y.boardId
    requires RecordOf(x.boardId, t[x.boardId]) == x && RecordOf(y.boardId, t[y.boardId]) == y
    requires x.updatedAt == y.updatedAt
    ensures IsListing([x, y], t)
  {
    assert [x] + [y] == [x, y] && [] + [x] == [x];
    IdsAppend([], x);
    IdsAppend([x], y);
    assert Ids([]) == {};
  }
}
