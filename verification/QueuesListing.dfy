/** listQueues: pages of queues by waiting jobs, active jobs or pressure, ties broken by name.
    The name is ascending in display order whichever way the sort value runs. */
module QueuesListing {
  import opened Common
  import opened Ordering
  import opened KeysetPaging
  import Text

  datatype SortBy = WaitingJobs | ActiveJobs | Pressure
  datatype SortDirection = Asc | Desc

  /** A joined row; a count or pressure with nothing to join is absent. */
  datatype QueueRow = QueueRow(
    name: string, isPaused: bool, waitingJobs: Option<int>, activeJobs: Option<int>, pressure: Option<int>)

  datatype QueueCursor = QueueCursor(name: string, waitingJobs: int, activeJobs: Option<int>, pressure: Option<int>)

  datatype ListError = PressureCursorRequired

  function Coalesce(count: Option<int>): int {
    if count.Some? then count.value else 0
  }

  function ToCursor(row: QueueRow): QueueCursor {
    QueueCursor(row.name, Coalesce(row.waitingJobs), Some(Coalesce(row.activeJobs)), Some(Coalesce(row.pressure)))
  }

  function SortExpression(sortBy: SortBy, row: QueueRow): int {
    match sortBy
    case Pressure => Coalesce(row.pressure)
    case ActiveJobs => Coalesce(row.activeJobs)
    case WaitingJobs => Coalesce(row.waitingJobs)
  }

  function CursorValue(cursor: QueueCursor, sortBy: SortBy): Result<int, ListError> {
    match sortBy
    case Pressure => if cursor.pressure.None? then Err(PressureCursorRequired) else Ok(cursor.pressure.value)
    case ActiveJobs => Ok(Coalesce(cursor.activeJobs))
    case WaitingJobs => Ok(cursor.waitingJobs)
  }

  function OrderDirection(cursorDirection: Direction, sortDirection: SortDirection): SortDirection {
    if cursorDirection.Next? then sortDirection
    else if sortDirection.Desc? then Asc else Desc
  }

  predicate SortOrder(
    cursorDirection: Direction, sortBy: SortBy, sortDirection: SortDirection, a: QueueRow, b: QueueRow)
  {
    var x, y := SortExpression(sortBy, a), SortExpression(sortBy, b);
    || (if OrderDirection(cursorDirection, sortDirection).Asc? then x < y else x > y)
    || (x == y && if cursorDirection.Next? then Text.Less(a.name, b.name) else Text.Less(b.name, a.name))
  }

  /** A cursor without the value the sort needs selects nothing here; listQueues rejects it before any query. */
  predicate CursorComparison(
    cursor: QueueCursor, cursorDirection: Direction, sortBy: SortBy, sortDirection: SortDirection, row: QueueRow)
  {
    var mark := CursorValue(cursor, sortBy);
    && mark.Ok?
    && var value := SortExpression(sortBy, row);
       var nameComparison :=
         if cursorDirection.Next? then Text.Less(cursor.name, row.name) else Text.Less(row.name, cursor.name);
       var tied := value == mark.value && nameComparison;
       var shouldUseGreaterThan := if cursorDirection.Next? then sortDirection.Asc? else sortDirection.Desc?;
       if shouldUseGreaterThan then value > mark.value || tied else value < mark.value || tied
  }

  function QueueListing(
    filter: QueueRow -> bool, sortBy: SortBy, sortDirection: SortDirection): Listing<QueueRow, QueueCursor>
  {
    Listing(
      filter,
      (dir: Direction, a: QueueRow, b: QueueRow) => SortOrder(dir, sortBy, sortDirection, a, b),
      (dir: Direction, c: QueueCursor, r: QueueRow) => CursorComparison(c, dir, sortBy, sortDirection, r),
      (row: QueueRow) => ToCursor(row))
  }

  /** The unique index on the queue name. */
  ghost predicate UniqueNames(table: seq<QueueRow>) {
    forall i, j :: 0 <= i < j < |table| ==> table[i].name != table[j].name
  }

  /** The mixed-direction tie-break fits the cursor comparison in all twelve combinations. */
  lemma ListingCoherent(filter: QueueRow -> bool, sortBy: SortBy, sortDirection: SortDirection, table: seq<QueueRow>)
    ensures Coherent(QueueListing(filter, sortBy, sortDirection))
    ensures UniqueNames(table) ==> Keyed(QueueListing(filter, sortBy, sortDirection), table)
  {
    var before := By(QueueListing(filter, sortBy, sortDirection), Next);
    forall a, b, c
      ensures before(a, b) ==> !before(b, a)
      ensures before(a, c) ==> before(a, b) || before(b, c)
      ensures a.name != b.name ==> before(a, b) || before(b, a)
    {
      Text.LessAsymmetric(a.name, b.name);
      Text.LessTotal(a.name, b.name);
      Text.LessTotal(b.name, c.name);
      Text.LessTransitive(b.name, a.name, c.name);
      Text.LessAsymmetric(a.name, c.name);
    }
  }

  lemma SameKeyMeansSameQueue(
    filter: QueueRow -> bool, sortBy: SortBy, sortDirection: SortDirection, a: QueueRow, b: QueueRow)
    ensures SameKey(QueueListing(filter, sortBy, sortDirection), a, b) <==>
            a.name == b.name && SortExpression(sortBy, a) == SortExpression(sortBy, b)
  {
    Text.LessTotal(a.name, b.name);
    Text.LessAsymmetric(a.name, b.name);
  }

  // ---- Display order, said of the columns ----

  /** The column a listing is sorted by, nothing counting as 0. */
  function SortValue(sortBy: SortBy, row: QueueRow): int {
    var column := match sortBy
                  case WaitingJobs => row.waitingJobs
                  case ActiveJobs => row.activeJobs
                  case Pressure => row.pressure;
    match column case Some(n) => n case None => 0
  }

  /** The same of a cursor; only a pressure cursor can lack it. */
  function MarkValue(sortBy: SortBy, mark: QueueCursor): Option<int> {
    match sortBy
    case WaitingJobs => Some(mark.waitingJobs)
    case ActiveJobs => Some(match mark.activeJobs case Some(n) => n case None => 0)
    case Pressure => mark.pressure
  }

  /** The sort value in the chosen direction, then the name in ascending order. */
  predicate ShownFirst(sortDirection: SortDirection, x: int, name: string, y: int, other: string) {
    if x == y then Text.Less(name, other)
    else match sortDirection case Asc => x < y case Desc => x > y
  }

  lemma OrderIsByColumns(
    filter: QueueRow -> bool, sortBy: SortBy, sortDirection: SortDirection, a: QueueRow, b: QueueRow)
    ensures By(QueueListing(filter, sortBy, sortDirection), Next)(a, b) <==>
            ShownFirst(sortDirection, SortValue(sortBy, a), a.name, SortValue(sortBy, b), b.name)
    ensures By(QueueListing(filter, sortBy, sortDirection), Prev)(a, b) <==>
            ShownFirst(sortDirection, SortValue(sortBy, b), b.name, SortValue(sortBy, a), a.name)
  {
  }

  /** A row that matches the filter and lies on the cursor's side. */
  function Asked(
    table: seq<QueueRow>, filter: QueueRow -> bool, cursor: Option<QueueCursor>, dir: Direction,
    sortBy: SortBy, sortDirection: SortDirection): QueueRow -> bool
  {
    (x: QueueRow) =>
      && x in table && filter(x)
      && match cursor
         case None => true
         case Some(mark) =>
           && MarkValue(sortBy, mark).Some?
           && var value := MarkValue(sortBy, mark).value;
              match dir
              case Next => ShownFirst(sortDirection, value, mark.name, SortValue(sortBy, x), x.name)
              case Prev => ShownFirst(sortDirection, SortValue(sortBy, x), x.name, value, mark.name)
  }

  function ShownBefore(sortBy: SortBy, sortDirection: SortDirection): (QueueRow, QueueRow) -> bool {
    (a: QueueRow, b: QueueRow) => ShownFirst(sortDirection, SortValue(sortBy, a), a.name, SortValue(sortBy, b), b.name)
  }

  /** The cursor of a row, column by column. */
  function MarkOf(row: QueueRow): QueueCursor {
    QueueCursor(name := row.name, waitingJobs := SortValue(WaitingJobs, row),
                activeJobs := Some(SortValue(ActiveJobs, row)), pressure := Some(SortValue(Pressure, row)))
  }

  lemma AskedIsWanted(
    table: seq<QueueRow>, filter: QueueRow -> bool, cursor: Option<QueueCursor>, dir: Direction,
    sortBy: SortBy, sortDirection: SortDirection, x: QueueRow)
    ensures Asked(table, filter, cursor, dir, sortBy, sortDirection)(x) <==>
            Wanted(QueueListing(filter, sortBy, sortDirection), table, dir, cursor)(x)
  {
  }

  /** What the handler answers, for any table, filter and cursor: at most `limit` of the rows asked for, in display
      order, with those left out all further from the cursor, and the columns of its last and first row as cursors. */
  lemma QueuePageExactly(
    table: seq<QueueRow>, filter: QueueRow -> bool, cursor: Option<QueueCursor>, dir: Direction,
    sortBy: SortBy, sortDirection: SortDirection, limit: nat)
    requires UniqueNames(table) && limit >= 1
    ensures PageShows(ListPage(QueueListing(filter, sortBy, sortDirection), table, dir, cursor, limit),
                      Asked(table, filter, cursor, dir, sortBy, sortDirection), ShownBefore(sortBy, sortDirection),
                      MarkOf, dir, cursor.Some?, limit)
  {
    var l := QueueListing(filter, sortBy, sortDirection);
    ListingCoherent(filter, sortBy, sortDirection, table);
    PageExactly(l, table, dir, cursor, limit);
    var asked, shown := Asked(table, filter, cursor, dir, sortBy, sortDirection), ShownBefore(sortBy, sortDirection);
    forall x
      ensures Wanted(l, table, dir, cursor)(x) == asked(x) && l.toCursor(x) == MarkOf(x)
    {
      AskedIsWanted(table, filter, cursor, dir, sortBy, sortDirection, x);
    }
    forall a, b
      ensures By(l, Next)(a, b) == shown(a, b)
    {
      OrderIsByColumns(filter, sortBy, sortDirection, a, b);
    }
    hide *;
    SaidOtherwise(ListPage(l, table, dir, cursor, limit), dir, cursor.Some?, limit,
                  Wanted(l, table, dir, cursor), By(l, Next), l.toCursor, asked, shown, MarkOf);
  }

  /** Over a whole walk the rows that match come in display order, each once. */
  lemma QueueWalkInOrder(
    filter: QueueRow -> bool, sortBy: SortBy, sortDirection: SortDirection, table: seq<QueueRow>, limit: nat)
    requires UniqueNames(table) && limit >= 1
    ensures var l := QueueListing(filter, sortBy, sortDirection);
            && Coherent(l) && Keyed(l, table)
            && var all := AllRows(Walk(l, table, None, limit));
               && (forall x :: x in all <==> x in table && filter(x))
               && forall i, j :: 0 <= i < j < |all| ==> ShownBefore(sortBy, sortDirection)(all[i], all[j])
  {
    var l := QueueListing(filter, sortBy, sortDirection);
    ListingCoherent(filter, sortBy, sortDirection, table);
    WalkListsTable(l, table, limit);
    ListedSorted(l, table);
    var all := AllRows(Walk(l, table, None, limit));
    forall i, j | 0 <= i < j < |all|
      ensures ShownBefore(sortBy, sortDirection)(all[i], all[j])
    {
      OrderIsByColumns(filter, sortBy, sortDirection, all[i], all[j]);
      assert By(l, Next)(all[i], all[j]);
    }
  }

  lemma QueueWalkListsTable(
    filter: QueueRow -> bool, sortBy: SortBy, sortDirection: SortDirection, table: seq<QueueRow>, limit: nat)
    requires UniqueNames(table) && limit >= 1
    ensures var l := QueueListing(filter, sortBy, sortDirection);
            && Coherent(l) && Keyed(l, table)
            && AllRows(Walk(l, table, None, limit)) == Sort(Filter(table, filter), By(l, Next))
  {
    ListingCoherent(filter, sortBy, sortDirection, table);
    WalkListsTable(QueueListing(filter, sortBy, sortDirection), table, limit);
  }

  lemma QueuePrevUndoesNext(
    filter: QueueRow -> bool, sortBy: SortBy, sortDirection: SortDirection, table: seq<QueueRow>, limit: nat, lo: nat)
    requires UniqueNames(table) && limit >= 1
    requires limit <= lo < |Listed(QueueListing(filter, sortBy, sortDirection), table)|
    ensures var l := QueueListing(filter, sortBy, sortDirection);
            var s := Listed(l, table);
            var here := ListPage(l, table, Next, Some(ToCursor(s[lo - 1])), limit);
            var back := ListPage(l, table, Prev, here.prevCursor, limit);
            && here == PageAt(l, s, lo, limit) && here.prevCursor.Some?
            && back == PageAt(l, s, lo - limit, limit)
            && ListPage(l, table, Next, back.nextCursor, limit) == here
  {
    var l := QueueListing(filter, sortBy, sortDirection);
    ListingCoherent(filter, sortBy, sortDirection, table);
    NextPageIsSlice(l, table, lo, limit);
    PrevUndoesNext(l, table, lo, limit);
  }

  /** Counts move while the walk is under way: a queue whose sort value stays is returned exactly once. */
  lemma QueueStaysReturnedOnce(
    filter: QueueRow -> bool, sortBy: SortBy, sortDirection: SortDirection,
    tables: seq<seq<QueueRow>>, pages: seq<Page<QueueRow, QueueCursor>>, limit: nat, r: QueueRow)
    requires limit >= 1
    requires forall t :: t in tables ==> UniqueNames(t) && Present(QueueListing(filter, sortBy, sortDirection), t, r)
    requires IsWalk(QueueListing(filter, sortBy, sortDirection), tables, pages, None, limit) && Finished(pages)
    ensures var all := AllRows(pages);
            && (exists i :: 0 <= i < |all| && all[i].name == r.name
                            && SortExpression(sortBy, all[i]) == SortExpression(sortBy, r))
            && (forall i, j :: 0 <= i < j < |all| && all[i].name == all[j].name
                               ==> SortExpression(sortBy, all[i]) != SortExpression(sortBy, all[j]))
  {
    var l := QueueListing(filter, sortBy, sortDirection);
    forall t | t in tables ensures Keyed(l, t) {
      ListingCoherent(filter, sortBy, sortDirection, t);
    }
    ListingCoherent(filter, sortBy, sortDirection, []);
    StayingRowReturnedOnce(l, tables, pages, limit, r);
    var all := AllRows(pages);
    var i :| 0 <= i < |all| && SameKey(l, all[i], r);
    SameKeyMeansSameQueue(filter, sortBy, sortDirection, all[i], r);
    forall i, j | 0 <= i < j < |all| && all[i].name == all[j].name
      ensures SortExpression(sortBy, all[i]) != SortExpression(sortBy, all[j])
    {
      NoKeyTwice(l, tables, pages, limit, i, j);
      SameKeyMeansSameQueue(filter, sortBy, sortDirection, all[i], all[j]);
    }
  }

  method ListQueues(
    table: seq<QueueRow>, filter: QueueRow -> bool, cursor: Option<QueueCursor>, cursorDirection: Direction,
    sortBy: SortBy, sortDirection: SortDirection, limit: nat)
    returns (result: Result<Page<QueueRow, QueueCursor>, ListError>)
    requires limit >= 1
    ensures result.Err? <==> cursor.Some? && sortBy.Pressure? && cursor.value.pressure.None?
    ensures result.Ok? ==>
              var l := QueueListing(filter, sortBy, sortDirection);
              result.value == ListPage(l, table, cursorDirection, cursor, limit)
  {
    hide Fetch, Reverse;
    if cursor.Some? {
      var mark := CursorValue(cursor.value, sortBy);
      if mark.Err? {
        return Err(mark.error);
      }
    }
    var rows := Fetch(QueueListing(filter, sortBy, sortDirection), table, cursorDirection, cursor, limit + 1);
    var hasExtra := |rows| > limit;
    if hasExtra {
      rows := rows[..|rows| - 1];
    }
    if cursorDirection.Prev? {
      rows := Reverse(rows);
    }
    var hasNewerPage := if cursorDirection.Next? then cursor.Some? else hasExtra;
    var hasOlderPage := if cursorDirection.Prev? then cursor.Some? else hasExtra;
    var nextCursor: Option<QueueCursor> := None;
    var prevCursor: Option<QueueCursor> := None;
    if hasOlderPage && rows != [] {
      nextCursor := Some(ToCursor(rows[|rows| - 1]));
    }
    if hasNewerPage && rows != [] {
      prevCursor := Some(ToCursor(rows[0]));
    }
    result := Ok(Page(rows, nextCursor, prevCursor));
  }
}
