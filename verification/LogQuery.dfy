/** One page of log records: the days walked newest first, cut by a page limit, a byte budget and a start time. */
module LogQuery {
  import opened Wrappers
  import opened Sequences
  import opened LogLines
  import opened LogRecords
  import opened LogDirectory
  import opened Ordering
  import opened Cursor
  import RevLines
  import RecordsRev

  const DEFAULT_LIMIT := 500
  const MAX_LIMIT := 5000
  const MAX_SOURCES := 200

  /** What the reader cannot see into: line decoders, instants, level ranks, lower-casing and module names. */
  datatype Env = Env(p: Parsers, instant: Table<string, int>, rank: Table<string, nat>,
                     lower: Table<string, string>, moduleOf: Table<string, string>)

  datatype Filters = Filters(min: Option<nat>, source: Option<string>, since: Option<int>, until: Option<int>, text: Option<string>)

  const NO_FILTERS := Filters(None, None, None, None, None)

  /** A query, with the outcome of parsing its filters. */
  datatype Query = Query(filters: Result<Filters, string>, limit: Option<nat>, cursor: Option<string>)

  datatype Page = Page(records: seq<Record>, nextCursor: Option<string>, sources: set<string>, scanLimited: bool)

  /** A record and where it starts. */
  datatype Spot = Spot(at: Position, record: Record)

  /** A record, how far down in the bytes of the call it starts, and how many of them had been read when it came up. */
  datatype Item = Item(spot: Spot, depth: nat, read: nat)

  predicate Mentions(env: Env, text: string, part: string) {
    Contains(Find(env.lower, text).GetOr(text), part)
  }

  predicate Matches(env: Env, f: Filters, e: Event) {
    && (f.min.Some? ==> Find(env.rank, e.level).GetOr(0) >= f.min.value)
    && (f.source.Some? ==> Mentions(env, e.target, f.source.value))
    && (f.text.Some? ==>
      || Mentions(env, e.message, f.text.value)
      || (e.fields.Some? && Mentions(env, e.fields.value, f.text.value)))
  }

  function Instant(env: Env, r: Record): Option<int> {
    Find(env.instant, r.event.ts)
  }

  predicate Older(env: Env, f: Filters, r: Record) {
    f.since.Some? && Instant(env, r).Some? && Instant(env, r).value < f.since.value
  }

  predicate AfterUntil(env: Env, f: Filters, r: Record) {
    f.until.Some? && Instant(env, r).Some? && Instant(env, r).value > f.until.value
  }

  predicate Keeps(env: Env, f: Filters, r: Record) {
    !AfterUntil(env, f, r) && Matches(env, f, r.event)
  }

  function ModuleOf(env: Env, r: Record): string {
    Find(env.moduleOf, r.event.target).GetOr(r.event.target)
  }

  /** How far into a day's file to start: not at all for a day newer than the cursor, below the cursor on its own day. */
  function StartOf(d: DayFile, resume: Option<Position>): (r: Option<nat>)
    ensures r.Some? ==> r.value <= |d.content|
  {
    match resume
    case None => Some(|d.content|)
    case Some(c) =>
      if Less(c.date, d.date) then None
      else if d.date == c.date then Some(Min(c.offset, |d.content|))
      else Some(|d.content|)
  }

  /** The records of a day below `pos`, last first, with the bytes read by a reader opened at `end` after `before` others; then `rest`. */
  function DayItems(p: Parsers, d: DayFile, end: nat, block: nat, before: nat, pos: nat, rest: seq<Item>): seq<Item>
    requires pos <= end <= |d.content| && block > 0
    decreases pos
  {
    match LastRecord(p, d, pos, [])
    case None => rest
    case Some(e) => [DayItem(d, end, block, before, e)] + DayItems(p, d, end, block, before, e.offset, rest)
  }

  function DayItem(d: DayFile, end: nat, block: nat, before: nat, e: Entry): Item
    requires e.offset <= end && block > 0
  {
    Item(Spot(Position(d.date, e.offset), e.record), before + end - e.offset, before + RevLines.BytesFor(end, block, e.offset))
  }

  /** Every record a call may come across, newest first. */
  function CallItems(p: Parsers, days: seq<DayFile>, resume: Option<Position>, block: nat, before: nat): seq<Item>
    requires block > 0
  {
    if days == [] then []
    else
      match StartOf(days[0], resume)
      case None => CallItems(p, days[1..], resume, block, before)
      case Some(end) =>
        DayItems(p, days[0], end, block, before, end, CallItems(p, days[1..], resume, block, before + end))
  }

  function AddSource(env: Env, sources: set<string>, r: Record): set<string> {
    if |sources| < MAX_SOURCES then sources + {ModuleOf(env, r)} else sources
  }

  /** Fill a page from the records in order, up to the first that ends it. */
  function Cut(env: Env, f: Filters, limit: nat, budget: nat, items: seq<Item>, page: Page): Page {
    if items == [] then page
    else
      var r := items[0].spot.record;
      var seen := page.(sources := AddSource(env, page.sources, r));
      var more := if Keeps(env, f, r) then seen.(records := seen.records + [r]) else seen;
      if Older(env, f, r) then seen
      else if Keeps(env, f, r) && |more.records| >= limit then more.(nextCursor := Some(r.id))
      else if items[0].read >= budget then more.(nextCursor := Some(r.id), scanLimited := true)
      else Cut(env, f, limit, budget, items[1..], more)
  }

  /** The bytes below the cursor. */
  function Whole(days: seq<DayFile>, resume: Option<Position>): nat {
    if days == [] then 0 else StartOf(days[0], resume).GetOr(0) + Whole(days[1..], resume)
  }

  /** How many bytes a call has read when it ends, `taken` records being on the page; `whole` if no record ends it. */
  function BytesRead(env: Env, f: Filters, limit: nat, budget: nat, items: seq<Item>, taken: nat, whole: nat): nat
    decreases |items|
  {
    if items == [] then whole
    else
      var r := items[0].spot.record;
      var now := if Keeps(env, f, r) then taken + 1 else taken;
      if Older(env, f, r) || (Keeps(env, f, r) && now >= limit) || items[0].read >= budget then items[0].read
      else BytesRead(env, f, limit, budget, items[1..], now, whole)
  }

  /** The call ended with this page and this many bytes read. */
  ghost predicate Ended(env: Env, f: Filters, limit: nat, budget: nat, items: seq<Item>, before: Page, page: Page, read: nat, whole: nat) {
    && page == Cut(env, f, limit, budget, items, before)
    && read == BytesRead(env, f, limit, budget, items, |before.records|, whole)
  }

  /** The call goes on: with what is left, the outcome is the same. */
  ghost predicate GoesOn(env: Env, f: Filters, limit: nat, budget: nat, items: seq<Item>, before: Page, left: seq<Item>, page: Page, whole: nat) {
    && page.nextCursor.None?
    && Cut(env, f, limit, budget, left, page) == Cut(env, f, limit, budget, items, before)
    && BytesRead(env, f, limit, budget, left, |page.records|, whole) == BytesRead(env, f, limit, budget, items, |before.records|, whole)
  }

  const EMPTY_PAGE := Page([], None, {}, false)

  function PageLimit(limit: Option<nat>): (r: nat)
    ensures 1 <= r <= MAX_LIMIT
    ensures limit == None ==> r == DEFAULT_LIMIT
    ensures limit.Some? ==> if limit.value == 0 then r == 1 else if limit.value > MAX_LIMIT then r == MAX_LIMIT else r == limit.value
  {
    Max(1, Min(limit.GetOr(DEFAULT_LIMIT), MAX_LIMIT))
  }

  function Resume(cursor: Option<string>): Result<Option<Position>, string> {
    if cursor.None? || cursor.value == "" then Ok(None)
    else
      match SplitCursor(cursor.value)
      case Ok(c) => Ok(Some(c))
      case Err(e) => Err(e)
  }

  /** What a call answers. */
  function Answer(env: Env, days: seq<DayFile>, q: Query, block: nat, budget: nat): Result<Page, string> {
    match q.filters
    case Err(e) => Err(e)
    case Ok(f) =>
      match Resume(q.cursor)
      case Err(e) => Err(e)
      case Ok(resume) =>
        var b := Max(block, RevLines.MIN_BLOCK);
        Ok(Cut(env, f, PageLimit(q.limit), budget, CallItems(env.p, days, resume, b, 0), EMPTY_PAGE))
  }

  lemma SameDayItems(p: Parsers, d: DayFile, end: nat, block: nat, before: nat, a: nat, b: nat, rest: seq<Item>)
    requires a <= end <= |d.content| && b <= end && block > 0
    requires LastLine(d.content, a) == LastLine(d.content, b)
    ensures DayItems(p, d, end, block, before, a, rest) == DayItems(p, d, end, block, before, b, rest)
  {
    SameLastRecord(p, d, a, b, []);
  }

  /** Put one record on the page, unless it ends the page. */
  method Visit(env: Env, f: Filters, limit: nat, budget: nat, r: Record, read: nat, before: Page, ghost items: seq<Item>, ghost whole: nat)
    returns (page: Page, done: bool)
    requires items != [] && items[0].spot.record == r && items[0].read == read && before.nextCursor.None?
    ensures if done then Ended(env, f, limit, budget, items, before, page, read, whole)
      else GoesOn(env, f, limit, budget, items, before, items[1..], page, whole)
  {
    page, done := before, true;
    if |page.sources| < MAX_SOURCES {
      page := page.(sources := page.sources + {ModuleOf(env, r)});
    }
    var scannedId := r.id;
    var ts := Instant(env, r);
    if f.since.Some? && ts.Some? && ts.value < f.since.value {
      return;
    }
    var afterUntil := f.until.Some? && ts.Some? && ts.value > f.until.value;
    if !afterUntil && Matches(env, f, r.event) {
      page := page.(records := page.records + [r]);
      if |page.records| >= limit {
        page := page.(nextCursor := Some(r.id));
        return;
      }
    }
    if read >= budget {
      page := page.(scanLimited := true, nextCursor := Some(scannedId));
      return;
    }
    done := false;
  }

  /** Walk one day's records, the first of `items`, into the page. */
  method WalkRecords(env: Env, f: Filters, limit: nat, budget: nat, block: nat, day: DayFile, end: nat, readBefore: nat,
                     pageBefore: Page, ghost items: seq<Item>, ghost rest: seq<Item>, ghost whole: nat)
    returns (page: Page, read: nat, done: bool)
    requires end <= |day.content| && pageBefore.nextCursor.None?
    requires items == DayItems(env.p, day, end, Max(block, RevLines.MIN_BLOCK), readBefore, end, rest)
    ensures if done then Ended(env, f, limit, budget, items, pageBefore, page, read, whole)
      else read == readBefore + end && GoesOn(env, f, limit, budget, items, pageBefore, rest, page, whole)
  {
    page, read := pageBefore, readBefore;
    ghost var b := Max(block, RevLines.MIN_BLOCK);
    var records := new RecordsRev.RecordsRev(env.p, day, Some(end), block);
    ghost var left := items;
    while true
      invariant records.Valid() && records.day == day && records.p == env.p && fresh(records) && fresh(records.lines)
      invariant records.lines.block == b && records.lines.end == end && records.lines.Pos() <= end
      invariant left == DayItems(env.p, day, end, b, readBefore, records.lines.Pos(), rest)
      invariant GoesOn(env, f, limit, budget, items, pageBefore, left, page, whole)
      invariant read == readBefore + records.lines.bytesRead
      decreases records.lines.Pos()
    {
      var before := records.lines.bytesRead;
      var next, entry := records.NextRecord();
      read := read + records.lines.bytesRead - before;
      if next.None? {
        done := false;
        return;
      }
      SameDayItems(env.p, day, end, b, readBefore, entry.value.offset, records.lines.Pos(), rest);
      page, done := Visit(env, f, limit, budget, next.value, read, page, left, whole);
      if done {
        return;
      }
      left := left[1..];
    }
  }

  /** Walk the newest of the days left, unless it is newer than the cursor. */
  method WalkDay(env: Env, f: Filters, limit: nat, budget: nat, block: nat, resume: Option<Position>, days: seq<DayFile>,
                 readBefore: nat, pageBefore: Page, ghost whole: nat) returns (page: Page, read: nat, done: bool)
    requires days != [] && pageBefore.nextCursor.None?
    ensures var b := Max(block, RevLines.MIN_BLOCK);
      var items := CallItems(env.p, days, resume, b, readBefore);
      if done then Ended(env, f, limit, budget, items, pageBefore, page, read, whole)
      else
        && read == readBefore + StartOf(days[0], resume).GetOr(0)
        && GoesOn(env, f, limit, budget, items, pageBefore, CallItems(env.p, days[1..], resume, b, read), page, whole)
  {
    ghost var b := Max(block, RevLines.MIN_BLOCK);
    ghost var items := CallItems(env.p, days, resume, b, readBefore);
    var start := StartOf(days[0], resume);
    if start.None? {
      // Days newer than the cursor's were already shown.
      assert items == CallItems(env.p, days[1..], resume, b, readBefore);
      return pageBefore, readBefore, false;
    }
    ghost var rest := CallItems(env.p, days[1..], resume, b, readBefore + start.value);
    assert items == DayItems(env.p, days[0], start.value, b, readBefore, start.value, rest);
    page, read, done := WalkRecords(env, f, limit, budget, block, days[0], start.value, readBefore, pageBefore, items, rest, whole);
  }

  /** Walk the days, newest first. */
  method WalkDays(env: Env, f: Filters, limit: nat, budget: nat, block: nat, resume: Option<Position>, days: seq<DayFile>)
    returns (page: Page, read: nat)
    ensures Ended(env, f, limit, budget, CallItems(env.p, days, resume, Max(block, RevLines.MIN_BLOCK), 0), EMPTY_PAGE,
      page, read, Whole(days, resume))
  {
    page, read := EMPTY_PAGE, 0;
    var todo, done := days, false;
    ghost var b := Max(block, RevLines.MIN_BLOCK);
    ghost var items, whole := CallItems(env.p, days, resume, b, 0), Whole(days, resume);
    while todo != [] && !done
      invariant if done then Ended(env, f, limit, budget, items, EMPTY_PAGE, page, read, whole)
        else
          && read + Whole(todo, resume) == whole
          && GoesOn(env, f, limit, budget, items, EMPTY_PAGE, CallItems(env.p, todo, resume, b, read), page, whole)
      decreases |todo|
    {
      page, read, done := WalkDay(env, f, limit, budget, block, resume, todo, read, page, whole);
      todo := todo[1..];
    }
  }

  /** One page of matching records, newest first. */
  method QueryWith(env: Env, dir: seq<DirFile>, q: Query, block: nat, budget: nat) returns (r: Result<Page, string>)
    ensures r == Answer(env, Days(dir), q, block, budget)
  {
    if q.filters.Err? {
      return Err(q.filters.error);
    }
    var resume := Resume(q.cursor);
    if resume.Err? {
      return Err(resume.error);
    }
    var days := DayFiles(dir);
    var page, _ := WalkDays(env, q.filters.value, PageLimit(q.limit), budget, block, resume.value, days);
    r := Ok(page);
  }

  // ---------- what a query asks for ----------

  /** A source is the module of the record's target. */
  lemma ModuleIs(env: Env, r: Record)
    ensures ModuleOf(env, r) == if r.event.target in env.moduleOf then env.moduleOf[r.event.target] else r.event.target
  {
  }

  lemma LimitsAre()
    ensures PageLimit(None) == 500 && PageLimit(Some(0)) == 1 && PageLimit(Some(7)) == 7 && PageLimit(Some(6000)) == 5000
  {
  }

  /** No cursor, or an empty one, starts at the newest record; any other one must be a position. */
  lemma ResumesAt(cursor: string)
    ensures Resume(None) == Ok(None) && Resume(Some("")) == Ok(None)
    ensures cursor != "" ==> match SplitCursor(cursor)
      case Ok(at) => Resume(Some(cursor)) == Ok(Some(at))
      case Err(_) => Resume(Some(cursor)) == Err("That log position is not valid; reload the log")
  {
  }

  /** A call fails on its filters first, then on its cursor, and never otherwise. */
  lemma AnswersExactlyWhen(env: Env, days: seq<DayFile>, q: Query, block: nat, budget: nat)
    ensures Answer(env, days, q, block, budget).Ok? <==> q.filters.Ok? && Resume(q.cursor).Ok?
    ensures q.filters.Err? ==> Answer(env, days, q, block, budget) == Err(q.filters.error)
    ensures q.filters.Ok? && Resume(q.cursor).Err? ==> Answer(env, days, q, block, budget) == Err(Resume(q.cursor).error)
  {
  }
}
