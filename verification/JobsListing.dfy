/** listJobs: pages of job runs by creation time or by coalesced duration. */
module JobsListing {
  import opened Common
  import opened Ordering
  import opened KeysetPaging
  import Text

  datatype SortBy = CreatedAt | DurationMs
  datatype SortDirection = Asc | Desc

  datatype JobRow = JobRow(
    id: string, jobId: string, createdAt: int, durationMs: Option<int>,
    queue: string, name: Option<string>, status: string, tags: seq<string>, errorMessage: Option<string>)

  datatype JobCursor = JobCursor(createdAt: int, jobId: string, id: string, durationMs: Option<int>)

  function ToCursor(job: JobRow): JobCursor {
    JobCursor(job.createdAt, job.jobId, job.id, job.durationMs)
  }

  function Coalesce(duration: Option<int>): int {
    if duration.Some? then duration.value else 0
  }

  function OrderDirection(cursorDirection: Direction, sortDirection: SortDirection): SortDirection {
    if cursorDirection.Next? then sortDirection
    else if sortDirection.Desc? then Asc else Desc
  }

  /** ORDER BY created_at, job_id, id, all ascending. */
  predicate CreatedAtBefore(a: JobRow, b: JobRow) {
    || a.createdAt < b.createdAt
    || (a.createdAt == b.createdAt && Text.Less(a.jobId, b.jobId))
    || (a.createdAt == b.createdAt && a.jobId == b.jobId && Text.Less(a.id, b.id))
  }

  /** ORDER BY COALESCE(duration_ms, 0), then as above, all ascending. */
  predicate DurationBefore(a: JobRow, b: JobRow) {
    || Coalesce(a.durationMs) < Coalesce(b.durationMs)
    || (Coalesce(a.durationMs) == Coalesce(b.durationMs) && CreatedAtBefore(a, b))
  }

  predicate AscBefore(sortBy: SortBy, a: JobRow, b: JobRow) {
    if sortBy.DurationMs? then DurationBefore(a, b) else CreatedAtBefore(a, b)
  }

  predicate SortOrder(cursorDirection: Direction, sortBy: SortBy, sortDirection: SortDirection, a: JobRow, b: JobRow) {
    if OrderDirection(cursorDirection, sortDirection).Desc? then AscBefore(sortBy, b, a) else AscBefore(sortBy, a, b)
  }

  predicate CreatedAtComparison(createdAt: int, id: string, jobId: string, useLessThan: bool, row: JobRow) {
    if useLessThan then
      || row.createdAt < createdAt
      || (row.createdAt == createdAt && Text.Less(row.jobId, jobId))
      || (row.createdAt == createdAt && row.jobId == jobId && Text.Less(row.id, id))
    else
      || row.createdAt > createdAt
      || (row.createdAt == createdAt && Text.Less(jobId, row.jobId))
      || (row.createdAt == createdAt && row.jobId == jobId && Text.Less(id, row.id))
  }

  predicate CursorComparison(
    cursor: JobCursor, cursorDirection: Direction, sortBy: SortBy, sortDirection: SortDirection, row: JobRow)
  {
    var useLessThan := if cursorDirection.Next? then sortDirection.Desc? else sortDirection.Asc?;
    var createdAtComparison := CreatedAtComparison(cursor.createdAt, cursor.id, cursor.jobId, useLessThan, row);
    if sortBy.CreatedAt? then createdAtComparison
    else
      var duration := Coalesce(row.durationMs);
      var mark := Coalesce(cursor.durationMs);
      || (if useLessThan then duration < mark else duration > mark)
      || (duration == mark && createdAtComparison)
  }

  /** The filters other than the cursor are any condition on the row. */
  function JobListing(
    filter: JobRow -> bool, sortBy: SortBy, sortDirection: SortDirection): Listing<JobRow, JobCursor>
  {
    Listing(
      filter,
      (dir: Direction, a: JobRow, b: JobRow) => SortOrder(dir, sortBy, sortDirection, a, b),
      (dir: Direction, c: JobCursor, r: JobRow) => CursorComparison(c, dir, sortBy, sortDirection, r),
      (job: JobRow) => ToCursor(job))
  }

  /** The primary key: no two rows of the table share an id. */
  ghost predicate UniqueIds(table: seq<JobRow>) {
    forall i, j :: 0 <= i < j < |table| ==> table[i].id != table[j].id
  }

  lemma CreatedAtWeakOrder(a: JobRow, b: JobRow, c: JobRow)
    ensures CreatedAtBefore(a, b) ==> !CreatedAtBefore(b, a)
    ensures CreatedAtBefore(a, c) ==> CreatedAtBefore(a, b) || CreatedAtBefore(b, c)
    ensures a.id != b.id ==> CreatedAtBefore(a, b) || CreatedAtBefore(b, a)
  {
    Text.LessAsymmetric(a.jobId, b.jobId);
    Text.LessAsymmetric(a.id, b.id);
    Text.LessTotal(a.jobId, b.jobId);
    Text.LessTotal(b.jobId, c.jobId);
    Text.LessTotal(a.id, b.id);
    Text.LessTotal(b.id, c.id);
    WeakText(a.jobId, b.jobId, c.jobId);
    WeakText(a.id, b.id, c.id);
  }

  lemma WeakText(a: string, b: string, c: string)
    ensures Text.Less(a, c) ==> Text.Less(a, b) || Text.Less(b, c)
    ensures !(Text.Less(a, c) && a == c)
  {
    Text.LessTotal(a, b);
    Text.LessTransitive(b, a, c);
    Text.LessAsymmetric(a, c);
  }

  /** ORDER BY is a strict weak order, it reverses with the cursor direction, it separates rows with different
      ids, and the cursor comparison with a row's own cursor agrees with it in all eight combinations. */
  lemma ListingCoherent(filter: JobRow -> bool, sortBy: SortBy, sortDirection: SortDirection, table: seq<JobRow>)
    ensures Coherent(JobListing(filter, sortBy, sortDirection))
    ensures UniqueIds(table) ==> Keyed(JobListing(filter, sortBy, sortDirection), table)
  {
    var l := JobListing(filter, sortBy, sortDirection);
    var before := By(l, Next);
    forall a, b, c
      ensures before(a, b) ==> !before(b, a)
      ensures before(a, c) ==> before(a, b) || before(b, c)
      ensures a.id != b.id ==> before(a, b) || before(b, a)
    {
      CreatedAtWeakOrder(a, b, c);
      CreatedAtWeakOrder(c, b, a);
    }
  }

  /** Rows that the order cannot tell apart are the same run with the same sort key. */
  lemma SameKeyMeansSameRun(filter: JobRow -> bool, sortBy: SortBy, sortDirection: SortDirection, a: JobRow, b: JobRow)
    ensures SameKey(JobListing(filter, sortBy, sortDirection), a, b) <==>
            && a.id == b.id && a.jobId == b.jobId && a.createdAt == b.createdAt
            && (sortBy.DurationMs? ==> Coalesce(a.durationMs) == Coalesce(b.durationMs))
  {
    Text.LessTotal(a.jobId, b.jobId);
    Text.LessTotal(a.id, b.id);
    Text.LessAsymmetric(a.jobId, b.jobId);
    Text.LessAsymmetric(a.id, b.id);
  }

  // ---- Display order, said of the columns ----

  /** What a row or a cursor is sorted by: the sort value, then creation time, job id and id. */
  datatype SortKey = SortKey(value: int, createdAt: int, jobId: string, id: string)

  function RowKey(sortBy: SortBy, row: JobRow): SortKey {
    match sortBy
    case CreatedAt => SortKey(row.createdAt, row.createdAt, row.jobId, row.id)
    case DurationMs =>
      SortKey(match row.durationMs case Some(ms) => ms case None => 0, row.createdAt, row.jobId, row.id)
  }

  function MarkKey(sortBy: SortBy, mark: JobCursor): SortKey {
    match sortBy
    case CreatedAt => SortKey(mark.createdAt, mark.createdAt, mark.jobId, mark.id)
    case DurationMs =>
      SortKey(match mark.durationMs case Some(ms) => ms case None => 0, mark.createdAt, mark.jobId, mark.id)
  }

  /** Lexicographically lower. */
  predicate Lower(a: SortKey, b: SortKey) {
    if a.value != b.value then a.value < b.value
    else if a.createdAt != b.createdAt then a.createdAt < b.createdAt
    else if a.jobId != b.jobId then Text.Less(a.jobId, b.jobId)
    else Text.Less(a.id, b.id)
  }

  /** Descending shows the higher key first: newest, or longest. */
  predicate ShownFirst(sortDirection: SortDirection, a: SortKey, b: SortKey) {
    match sortDirection
    case Asc => Lower(a, b)
    case Desc => Lower(b, a)
  }

  lemma OrderIsByKey(filter: JobRow -> bool, sortBy: SortBy, sortDirection: SortDirection, a: JobRow, b: JobRow)
    ensures By(JobListing(filter, sortBy, sortDirection), Next)(a, b) <==>
            ShownFirst(sortDirection, RowKey(sortBy, a), RowKey(sortBy, b))
    ensures By(JobListing(filter, sortBy, sortDirection), Prev)(a, b) <==>
            ShownFirst(sortDirection, RowKey(sortBy, b), RowKey(sortBy, a))
  {
    Text.LessAsymmetric(a.jobId, a.jobId);
    Text.LessAsymmetric(b.jobId, b.jobId);
  }

  lemma CursorIsByKey(
    filter: JobRow -> bool, sortBy: SortBy, sortDirection: SortDirection, dir: Direction, mark: JobCursor, x: JobRow)
    ensures JobListing(filter, sortBy, sortDirection).beyond(dir, mark, x) <==>
            match dir
            case Next => ShownFirst(sortDirection, MarkKey(sortBy, mark), RowKey(sortBy, x))
            case Prev => ShownFirst(sortDirection, RowKey(sortBy, x), MarkKey(sortBy, mark))
  {
    Text.LessAsymmetric(mark.jobId, mark.jobId);
  }

  /** A row that matches the filter and lies on the cursor's side. */
  function Asked(
    table: seq<JobRow>, filter: JobRow -> bool, cursor: Option<JobCursor>, dir: Direction,
    sortBy: SortBy, sortDirection: SortDirection): JobRow -> bool
  {
    (x: JobRow) =>
      && x in table && filter(x)
      && match cursor
         case None => true
         case Some(mark) =>
           match dir
           case Next => ShownFirst(sortDirection, MarkKey(sortBy, mark), RowKey(sortBy, x))
           case Prev => ShownFirst(sortDirection, RowKey(sortBy, x), MarkKey(sortBy, mark))
  }

  function ShownBefore(sortBy: SortBy, sortDirection: SortDirection): (JobRow, JobRow) -> bool {
    (a: JobRow, b: JobRow) => ShownFirst(sortDirection, RowKey(sortBy, a), RowKey(sortBy, b))
  }

  /** The cursor of a row, column by column. */
  function MarkOf(row: JobRow): JobCursor {
    JobCursor(createdAt := row.createdAt, jobId := row.jobId, id := row.id, durationMs := row.durationMs)
  }

  lemma AskedIsWanted(
    table: seq<JobRow>, filter: JobRow -> bool, cursor: Option<JobCursor>, dir: Direction,
    sortBy: SortBy, sortDirection: SortDirection, x: JobRow)
    ensures Asked(table, filter, cursor, dir, sortBy, sortDirection)(x) <==>
            Wanted(JobListing(filter, sortBy, sortDirection), table, dir, cursor)(x)
  {
    if cursor.Some? {
      CursorIsByKey(filter, sortBy, sortDirection, dir, cursor.value, x);
    }
  }

  /** What the handler answers, for any table, filter and cursor: at most `limit` of the rows asked for, in display
      order, with those left out all further from the cursor, and the columns of its last and first row as cursors. */
  lemma JobPageExactly(
    table: seq<JobRow>, filter: JobRow -> bool, cursor: Option<JobCursor>, dir: Direction,
    sortBy: SortBy, sortDirection: SortDirection, limit: nat)
    requires UniqueIds(table) && limit >= 1
    ensures PageShows(ListPage(JobListing(filter, sortBy, sortDirection), table, dir, cursor, limit),
                      Asked(table, filter, cursor, dir, sortBy, sortDirection), ShownBefore(sortBy, sortDirection),
                      MarkOf, dir, cursor.Some?, limit)
  {
    var l := JobListing(filter, sortBy, sortDirection);
    ListingCoherent(filter, sortBy, sortDirection, table);
    PageExactly(l, table, dir, cursor, limit);
    var asked, shown := Asked(table, filter, cursor, dir, sortBy, sortDirection), ShownBefore(sortBy, sortDirection);
    forall x
      ensures Wanted(l, table, dir, cursor)(x) == asked(x) && l.toCursor(x) == MarkOf(x)
    {
      AskedIsWanted(table, filter, cursor, dir, sortBy, sortDirection, x);
    }
    forall a, b
      ensures By(l, Next)(a, b) == shown(a, b)
    {
      OrderIsByKey(filter, sortBy, sortDirection, a, b);
    }
    hide *;
    SaidOtherwise(ListPage(l, table, dir, cursor, limit), dir, cursor.Some?, limit,
                  Wanted(l, table, dir, cursor), By(l, Next), l.toCursor, asked, shown, MarkOf);
  }

  /** Over a whole walk the rows that match come in display order, each once. */
  lemma JobWalkInOrder(
    filter: JobRow -> bool, sortBy: SortBy, sortDirection: SortDirection, table: seq<JobRow>, limit: nat)
    requires UniqueIds(table) && limit >= 1
    ensures var l := JobListing(filter, sortBy, sortDirection);
            && Coherent(l) && Keyed(l, table)
            && var all := AllRows(Walk(l, table, None, limit));
               && (forall x :: x in all <==> x in table && filter(x))
               && forall i, j :: 0 <= i < j < |all| ==>
                    ShownFirst(sortDirection, RowKey(sortBy, all[i]), RowKey(sortBy, all[j]))
  {
    var l := JobListing(filter, sortBy, sortDirection);
    ListingCoherent(filter, sortBy, sortDirection, table);
    WalkListsTable(l, table, limit);
    ListedSorted(l, table);
    var all := AllRows(Walk(l, table, None, limit));
    forall i, j | 0 <= i < j < |all|
      ensures ShownFirst(sortDirection, RowKey(sortBy, all[i]), RowKey(sortBy, all[j]))
    {
      OrderIsByKey(filter, sortBy, sortDirection, all[i], all[j]);
      assert By(l, Next)(all[i], all[j]);
    }
  }

  /** The table is fixed: the pages of the whole walk, joined, are the filtered table in sorted order. */
  lemma JobWalkListsTable(
    filter: JobRow -> bool, sortBy: SortBy, sortDirection: SortDirection, table: seq<JobRow>, limit: nat)
    requires UniqueIds(table) && limit >= 1
    ensures var l := JobListing(filter, sortBy, sortDirection);
            && Coherent(l) && Keyed(l, table)
            && AllRows(Walk(l, table, None, limit)) == Sort(Filter(table, filter), By(l, Next))
  {
    ListingCoherent(filter, sortBy, sortDirection, table);
    WalkListsTable(JobListing(filter, sortBy, sortDirection), table, limit);
  }

  /** Page k of the walk is the k-th slice of the sorted list; its previous cursor leads back to slice k - 1
      as a whole page, whose next cursor leads to slice k again. */
  lemma JobPrevUndoesNext(
    filter: JobRow -> bool, sortBy: SortBy, sortDirection: SortDirection, table: seq<JobRow>, limit: nat, lo: nat)
    requires UniqueIds(table) && limit >= 1
    requires limit <= lo < |Listed(JobListing(filter, sortBy, sortDirection), table)|
    ensures var l := JobListing(filter, sortBy, sortDirection);
            var s := Listed(l, table);
            var here := ListPage(l, table, Next, Some(ToCursor(s[lo - 1])), limit);
            var back := ListPage(l, table, Prev, here.prevCursor, limit);
            && here == PageAt(l, s, lo, limit) && here.prevCursor.Some?
            && back == PageAt(l, s, lo - limit, limit)
            && ListPage(l, table, Next, back.nextCursor, limit) == here
  {
    var l := JobListing(filter, sortBy, sortDirection);
    ListingCoherent(filter, sortBy, sortDirection, table);
    NextPageIsSlice(l, table, lo, limit);
    PrevUndoesNext(l, table, lo, limit);
  }

  /** The table changes between fetches: a run that stays, matches and keeps its sort key is returned exactly once. */
  lemma JobStaysReturnedOnce(
    filter: JobRow -> bool, sortBy: SortBy, sortDirection: SortDirection,
    tables: seq<seq<JobRow>>, pages: seq<Page<JobRow, JobCursor>>, limit: nat, r: JobRow)
    requires limit >= 1
    requires forall t :: t in tables ==> UniqueIds(t) && Present(JobListing(filter, sortBy, sortDirection), t, r)
    requires IsWalk(JobListing(filter, sortBy, sortDirection), tables, pages, None, limit) && Finished(pages)
    ensures var l := JobListing(filter, sortBy, sortDirection);
            var all := AllRows(pages);
            && (exists i :: 0 <= i < |all| && all[i].id == r.id && SameKey(l, all[i], r))
            && (forall i, j :: 0 <= i < j < |all| && all[i].id == all[j].id ==> !SameKey(l, all[i], all[j]))
  {
    var l := JobListing(filter, sortBy, sortDirection);
    forall t | t in tables ensures Keyed(l, t) {
      ListingCoherent(filter, sortBy, sortDirection, t);
    }
    ListingCoherent(filter, sortBy, sortDirection, []);
    StayingRowReturnedOnce(l, tables, pages, limit, r);
    var all := AllRows(pages);
    var i :| 0 <= i < |all| && SameKey(l, all[i], r);
    SameKeyMeansSameRun(filter, sortBy, sortDirection, all[i], r);
    forall i, j | 0 <= i < j < |all| ensures !SameKey(l, all[i], all[j]) {
      NoKeyTwice(l, tables, pages, limit, i, j);
    }
  }

  /** The handler: query, pop, reverse, cursors. */
  method ListJobs(
    table: seq<JobRow>, filter: JobRow -> bool, cursor: Option<JobCursor>, cursorDirection: Direction,
    sortBy: SortBy, sortDirection: SortDirection, limit: nat)
    returns (page: Page<JobRow, JobCursor>)
    requires limit >= 1
    ensures page == ListPage(JobListing(filter, sortBy, sortDirection), table, cursorDirection, cursor, limit)
  {
    hide Fetch, Reverse;
    var rows := Fetch(JobListing(filter, sortBy, sortDirection), table, cursorDirection, cursor, limit + 1);
    var hasExtra := |rows| > limit;
    if hasExtra {
      rows := rows[..|rows| - 1];
    }
    if cursorDirection.Prev? {
      rows := Reverse(rows);
    }
    var hasNewerPage := if cursorDirection.Next? then cursor.Some? else hasExtra;
    var hasOlderPage := if cursorDirection.Prev? then cursor.Some? else hasExtra;
    var nextCursor: Option<JobCursor> := None;
    var prevCursor: Option<JobCursor> := None;
    if hasOlderPage && rows != [] {
      nextCursor := Some(ToCursor(rows[|rows| - 1]));
    }
    if hasNewerPage && rows != [] {
      prevCursor := Some(ToCursor(rows[0]));
    }
    page := Page(rows, nextCursor, prevCursor);
  }
}
