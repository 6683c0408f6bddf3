/** Following the cursor from page to page. */
module Paging {
  import opened Wrappers
  import opened Sequences
  import opened LogLines
  import opened LogRecords
  import opened LogDirectory
  import opened LogQuery
  import opened Ordering
  import opened Cursor
  import RevLines

  /** A day's records below `pos`, last first; then `rest`. */
  function DayLog(p: Parsers, d: DayFile, pos: nat, rest: seq<Spot>): seq<Spot>
    requires pos <= |d.content|
    decreases pos
  {
    match LastRecord(p, d, pos, [])
    case None => rest
    case Some(e) => [Spot(Position(d.date, e.offset), e.record)] + DayLog(p, d, e.offset, rest)
  }

  /** The simple form of a log: every record below the cursor, newest first. */
  function Log(p: Parsers, days: seq<DayFile>, resume: Option<Position>): seq<Spot> {
    if days == [] then []
    else
      match StartOf(days[0], resume)
      case None => Log(p, days[1..], resume)
      case Some(end) => DayLog(p, days[0], end, Log(p, days[1..], resume))
  }

  /** The records that belong on a page. */
  function Wanted(env: Env, f: Filters, log: seq<Spot>): seq<Record> {
    if log == [] then []
    else (if Keeps(env, f, log[0].record) then [log[0].record] else []) + Wanted(env, f, log[1..])
  }

  /** The records in front of the first one before `since`. */
  function Live(env: Env, f: Filters, log: seq<Spot>): seq<Spot> {
    if log == [] || Older(env, f, log[0].record) then [] else [log[0]] + Live(env, f, log[1..])
  }

  /** The complete filtered scan. */
  function Scan(env: Env, f: Filters, log: seq<Spot>): seq<Record> {
    Wanted(env, f, Live(env, f, log))
  }

  function Spots(items: seq<Item>): (r: seq<Spot>)
    ensures |r| == |items|
  {
    if items == [] then [] else [items[0].spot] + Spots(items[1..])
  }

  lemma ScanStep(env: Env, f: Filters, log: seq<Spot>)
    requires log != []
    ensures Scan(env, f, log) ==
      if Older(env, f, log[0].record) then []
      else (if Keeps(env, f, log[0].record) then [log[0].record] else []) + Scan(env, f, log[1..])
  {
    if !Older(env, f, log[0].record) {
      var live := Live(env, f, log);
      assert live[0] == log[0] && live[1..] == Live(env, f, log[1..]);
    }
  }

  // ---------- one page ----------

  lemma {:induction false} DaySpots(p: Parsers, d: DayFile, end: nat, block: nat, before: nat, pos: nat, rest: seq<Item>)
    requires pos <= end <= |d.content| && block > 0
    ensures Spots(DayItems(p, d, end, block, before, pos, rest)) == DayLog(p, d, pos, Spots(rest))
    decreases pos
  {
    match LastRecord(p, d, pos, [])
    case None =>
    case Some(e) =>
      var items := DayItems(p, d, end, block, before, pos, rest);
      assert items[1..] == DayItems(p, d, end, block, before, e.offset, rest);
      DaySpots(p, d, end, block, before, e.offset, rest);
  }

  /** How blocks are read does not matter to which records come up. */
  lemma {:induction false} CallSpots(p: Parsers, days: seq<DayFile>, resume: Option<Position>, block: nat, before: nat)
    requires block > 0
    ensures Spots(CallItems(p, days, resume, block, before)) == Log(p, days, resume)
  {
    if days != [] {
      match StartOf(days[0], resume)
      case None => CallSpots(p, days[1..], resume, block, before);
      case Some(end) =>
        CallSpots(p, days[1..], resume, block, before + end);
        DaySpots(p, days[0], end, block, before, end, CallItems(p, days[1..], resume, block, before + end));
    }
  }

  /** The page `r`, filled from `page` on, is the front of a scan; what follows its cursor, the last record taken, is left. */
  ghost predicate IsFront(env: Env, f: Filters, log: seq<Spot>, page: Page, r: Page, n: nat)
    requires n <= |log|
  {
    && r.records + (if r.nextCursor.None? then [] else Scan(env, f, log[n..])) == page.records + Scan(env, f, log)
    && (r.nextCursor.Some? ==> n > 0 && r.nextCursor == Some(log[n - 1].record.id))
  }

  lemma FrontStep(env: Env, f: Filters, log: seq<Spot>, page: Page, more: Page, r: Page, n: nat)
    requires log != [] && !Older(env, f, log[0].record) && n < |log| && IsFront(env, f, log[1..], more, r, n)
    requires more.records == page.records + if Keeps(env, f, log[0].record) then [log[0].record] else []
    ensures IsFront(env, f, log, page, r, n + 1)
  {
    ScanStep(env, f, log);
    Associative(page.records, if Keeps(env, f, log[0].record) then [log[0].record] else [], Scan(env, f, log[1..]));
    assert log[n + 1..] == log[1..][n..];
  }

  lemma FrontEnd(env: Env, f: Filters, log: seq<Spot>, page: Page, r: Page)
    requires log != [] && !Older(env, f, log[0].record) && r.nextCursor == Some(log[0].record.id)
    requires r.records == page.records + if Keeps(env, f, log[0].record) then [log[0].record] else []
    ensures IsFront(env, f, log, page, r, 1)
  {
    ScanStep(env, f, log);
    Associative(page.records, if Keeps(env, f, log[0].record) then [log[0].record] else [], Scan(env, f, log[1..]));
  }

  /** A page takes the next records in order; its cursor is the last one taken, and what follows is still to come. */
  lemma {:induction false} CutShape(env: Env, f: Filters, limit: nat, budget: nat, items: seq<Item>, page: Page) returns (n: nat)
    requires page.nextCursor.None?
    ensures n <= |items| && IsFront(env, f, Spots(items), page, Cut(env, f, limit, budget, items, page), n)
    decreases |items|
  {
    n := 0;
    if items != [] {
      var log := Spots(items);
      var r := items[0].spot.record;
      var seen := page.(sources := AddSource(env, page.sources, r));
      var more := if Keeps(env, f, r) then seen.(records := seen.records + [r]) else seen;
      if Older(env, f, r) {
        ScanStep(env, f, log);
      } else if (Keeps(env, f, r) && |more.records| >= limit) || items[0].read >= budget {
        FrontEnd(env, f, log, page, Cut(env, f, limit, budget, items, page));
        n := 1;
      } else {
        n := CutShape(env, f, limit, budget, items[1..], more);
        FrontStep(env, f, log, page, more, Cut(env, f, limit, budget, items, page), n);
        n := n + 1;
      }
    }
  }

  /** No record up to the first one before `since` exhausts the byte budget. */
  predicate WithinBudget(env: Env, f: Filters, budget: nat, items: seq<Item>) {
    items == [] || Older(env, f, items[0].spot.record)
    || (items[0].read < budget && WithinBudget(env, f, budget, items[1..]))
  }

  /** Exactly when a page has no cursor: the whole scan stays below the limit and within the budget. */
  lemma {:induction false} NoCursorExactlyWhen(env: Env, f: Filters, limit: nat, budget: nat, items: seq<Item>, page: Page)
    requires page.nextCursor.None? && |page.records| < limit
    ensures var r := Cut(env, f, limit, budget, items, page);
      && (r.nextCursor.None? <==> |page.records| + |Scan(env, f, Spots(items))| < limit && WithinBudget(env, f, budget, items))
      && |r.records| <= limit
      && (!page.scanLimited ==> (r.scanLimited <==> r.nextCursor.Some? && |r.records| < limit))
    decreases |items|
  {
    if items != [] {
      ScanStep(env, f, Spots(items));
      var r := items[0].spot.record;
      var seen := page.(sources := AddSource(env, page.sources, r));
      var more := if Keeps(env, f, r) then seen.(records := seen.records + [r]) else seen;
      if !Older(env, f, r) && |more.records| < limit && items[0].read < budget {
        NoCursorExactlyWhen(env, f, limit, budget, items[1..], more);
      }
    }
  }

  /** A one-line log: its only record starts at 0. */
  lemma OneLineLog(p: Parsers, d: DayFile, e: Event)
    requires d.json && d.content == [65] && Starts(p, d, Line(0, [65])) == Some(e)
    ensures Log(p, [d], None) == [Spot(Position(d.date, 0), Record(FormatId(d.date, 0), e))]
    ensures Log(p, [d], Some(Position(d.date, 0))) == []
  {
    assert d.content[0..1] == [65];
    assert PieceStart(d.content, 0) == 0 && PieceStart(d.content, 1) == 0;
    assert LastLine(d.content, 1) == Some(Line(0, [65])) && LastLine(d.content, 0) == None;
    assert DayLog(p, d, 0, []) == [];
    assert [d][1..] == [] && Log(p, [], None) == [] && Log(p, [], Some(Position(d.date, 0))) == [];
    LessIrreflexive(d.date);
  }

  lemma FullPage(env: Env, budget: nat, items: seq<Item>)
    requires items != []
    ensures Cut(env, NO_FILTERS, 1, budget, items, EMPTY_PAGE).nextCursor == Some(items[0].spot.record.id)
  {
    assert |EMPTY_PAGE.records + [items[0].spot.record]| == 1;
  }

  /** For instance, a page of one record from a log of one record has a cursor, and nothing is left below it. */
  lemma CursorToNothingExample(env: Env, d: DayFile, e: Event, block: nat, budget: nat) returns (page: Page)
    requires d.json && d.content == [65] && Starts(env.p, d, Line(0, [65])) == Some(e)
    ensures Answer(env, [d], Query(Ok(NO_FILTERS), Some(1), None), block, budget) == Ok(page)
    ensures page.nextCursor == Some(FormatId(d.date, 0)) && Log(env.p, [d], Some(Position(d.date, 0))) == []
  {
    var b := Max(block, RevLines.MIN_BLOCK);
    var items := CallItems(env.p, [d], None, b, 0);
    CallSpots(env.p, [d], None, b, 0);
    OneLineLog(env.p, d, e);
    assert Spots(items)[0] == items[0].spot;
    FullPage(env, budget, items);
    page := Cut(env, NO_FILTERS, 1, budget, items, EMPTY_PAGE);
  }

  /** The modules of the records, and those in `mods`. */
  function Modules(env: Env, mods: set<string>, log: seq<Spot>): set<string>
    decreases |log|
  {
    if log == [] then mods else Modules(env, mods + {ModuleOf(env, log[0].record)}, log[1..])
  }

  lemma ModulesStep(env: Env, mods: set<string>, log: seq<Spot>, n: nat)
    requires 0 < n <= |log|
    ensures Modules(env, mods, log[..n]) == Modules(env, mods + {ModuleOf(env, log[0].record)}, log[1..][..n - 1])
  {
    assert log[..n][1..] == log[1..][..n - 1];
  }

  /** Only these modules, and all of them while there are fewer than the most a page lists. */
  ghost predicate Lists(sources: set<string>, mods: set<string>) {
    sources <= mods && (|sources| < 200 ==> sources == mods)
  }

  lemma ListsOneMore(env: Env, sources: set<string>, mods: set<string>, r: Record)
    requires Lists(sources, mods)
    ensures Lists(AddSource(env, sources, r), mods + {ModuleOf(env, r)})
  {
    var x := ModuleOf(env, r);
    if x in sources {
      assert sources + {x} == sources;
    }
  }

  /** `n` is how many records a call came across: up to the one its cursor names, or the first one before `since`, or all. */
  ghost predicate CameAcross(env: Env, f: Filters, log: seq<Spot>, cursor: Option<string>, n: nat) {
    && n <= |log|
    && match cursor
      case Some(id) => n > 0 && id == log[n - 1].record.id
      case None => n == |log| || (n > 0 && Older(env, f, log[n - 1].record))
  }

  lemma OneMoreAcross(env: Env, f: Filters, log: seq<Spot>, cursor: Option<string>, n: nat)
    requires log != [] && CameAcross(env, f, log[1..], cursor, n) && (n > 0 || cursor.None?)
    ensures CameAcross(env, f, log, cursor, n + 1)
  {
  }

  /** The sources of a page are the modules of the records it came across, up to the one that ended it. */
  lemma {:induction false} SourcesAre(env: Env, f: Filters, limit: nat, budget: nat, items: seq<Item>, page: Page, mods: set<string>)
    returns (n: nat)
    requires page.nextCursor.None? && Lists(page.sources, mods)
    ensures var r, log := Cut(env, f, limit, budget, items, page), Spots(items);
      CameAcross(env, f, log, r.nextCursor, n) && Lists(r.sources, Modules(env, mods, log[..n]))
    decreases |items|
  {
    n := 0;
    var log := Spots(items);
    if items == [] {
      assert log[..0] == [];
    } else {
      var r := items[0].spot.record;
      var seen := page.(sources := AddSource(env, page.sources, r));
      var more := if Keeps(env, f, r) then seen.(records := seen.records + [r]) else seen;
      ListsOneMore(env, page.sources, mods, r);
      if Older(env, f, r) || (Keeps(env, f, r) && |more.records| >= limit) || items[0].read >= budget {
        n := 1;
      } else {
        n := SourcesAre(env, f, limit, budget, items[1..], more, mods + {ModuleOf(env, r)});
        OneMoreAcross(env, f, log, Cut(env, f, limit, budget, items, page).nextCursor, n);
        n := n + 1;
      }
      ModulesStep(env, mods, log, n);
    }
  }

  // ---------- resuming ----------

  ghost predicate HasOwnId(s: Spot) {
    s.record.id == FormatId(s.at.date, s.at.offset)
  }

  /** Every record's id is its place. */
  lemma {:induction false} IdsArePlaces(p: Parsers, days: seq<DayFile>, resume: Option<Position>, n: nat)
    requires 0 < n <= |Log(p, days, resume)|
    ensures HasOwnId(Log(p, days, resume)[n - 1])
    decreases |days|
  {
    OwnThenOlder(p, days, resume, n);
    var own := |Log(p, days, resume)| - |Log(p, days[1..], resume)|;
    if n > own {
      IdsArePlaces(p, days[1..], resume, n - own);
    }
  }

  /** Below its record `n - 1`, a log made of a day's records and then `rest` is what is left of it. */
  ghost predicate Follows(p: Parsers, d: DayFile, rest: seq<Spot>, log: seq<Spot>, n: nat)
    requires 0 < n <= |log|
  {
    var own := |log| - |rest|;
    && 0 <= own
    && (n <= own ==>
      var at := log[n - 1].at;
      && at.date == d.date && at.offset < |d.content| && HasOwnId(log[n - 1])
      && DayLog(p, d, at.offset, rest) == log[n..])
    && (n > own ==> log[n - 1] == rest[n - own - 1] && log[n..] == rest[n - own..])
  }

  lemma {:induction false} DayLogAfter(p: Parsers, d: DayFile, pos: nat, rest: seq<Spot>, n: nat)
    requires pos <= |d.content| && 0 < n <= |DayLog(p, d, pos, rest)|
    ensures Follows(p, d, rest, DayLog(p, d, pos, rest), n)
    ensures n <= |DayLog(p, d, pos, rest)| - |rest| ==> DayLog(p, d, pos, rest)[n - 1].at.offset < pos
    decreases pos
  {
    match LastRecord(p, d, pos, [])
    case None =>
    case Some(e) =>
      var log := DayLog(p, d, pos, rest);
      assert log[1..] == DayLog(p, d, e.offset, rest);
      if n > 1 {
        DayLogAfter(p, d, e.offset, rest, n - 1);
        assert log[n..] == log[1..][n - 1..];
      } else {
        DayLogLength(p, d, e.offset, rest);
      }
  }

  lemma {:induction false} DayLogLength(p: Parsers, d: DayFile, pos: nat, rest: seq<Spot>)
    requires pos <= |d.content|
    ensures |rest| <= |DayLog(p, d, pos, rest)|
    decreases pos
  {
    match LastRecord(p, d, pos, [])
    case None =>
    case Some(e) => DayLogLength(p, d, e.offset, rest);
  }

  /** A place within one of the days. */
  ghost predicate Within(at: Position, days: seq<DayFile>) {
    DayAt(days, at.date).Some? && at.offset < |DayAt(days, at.date).value.content|
  }

  lemma WithinTail(at: Position, days: seq<DayFile>)
    requires days != [] && Within(at, days[1..]) && NewestFirst(days)
    ensures Within(at, days) && Less(at.date, days[0].date)
  {
    DayAtIn(days[1..], at.date);
    LessIsStrict(at.date, days[0].date);
  }

  /** A cursor above all the days leaves them whole. */
  lemma {:induction false} AboveAll(p: Parsers, days: seq<DayFile>, c: Position)
    requires forall i | 0 <= i < |days| :: Less(days[i].date, c.date)
    ensures Log(p, days, Some(c)) == Log(p, days, None)
  {
    if days != [] {
      LessIsStrict(days[0].date, c.date);
      AboveAll(p, days[1..], c);
    }
  }

  /** Where a call starts on a day, the days below are read whole. */
  lemma BelowStart(p: Parsers, days: seq<DayFile>, resume: Option<Position>)
    requires days != [] && NewestFirst(days) && StartOf(days[0], resume).Some?
    ensures Log(p, days[1..], resume) == Log(p, days[1..], None)
  {
    match resume
    case None =>
    case Some(c) =>
      var rest := days[1..];
      LessIsTotal(c.date, days[0].date);
      forall i | 0 <= i < |rest| ensures Less(rest[i].date, c.date) {
        if c.date != days[0].date {
          LessIsTransitive(rest[i].date, days[0].date, c.date);
        }
      }
      AboveAll(p, days[1..], c);
  }

  /** Resuming within the day a call starts on. */
  lemma ResumeOnDay(p: Parsers, days: seq<DayFile>, resume: Option<Position>, at: Position)
    requires days != [] && NewestFirst(days) && StartOf(days[0], resume).Some?
    requires at.date == days[0].date && at.offset <= |days[0].content|
    ensures Log(p, days, Some(at)) == DayLog(p, days[0], at.offset, Log(p, days[1..], resume))
  {
    LessIrreflexive(at.date);
    BelowStart(p, days, resume);
    BelowStart(p, days, Some(at));
  }

  /** Resuming below the newest day skips it. */
  lemma ResumeBelowDay(p: Parsers, days: seq<DayFile>, at: Position)
    requires days != [] && NewestFirst(days) && Within(at, days[1..])
    ensures Within(at, days) && Log(p, days, Some(at)) == Log(p, days[1..], Some(at))
  {
    WithinTail(at, days);
  }

  /** A log is the records of the newest day the call starts on, then those of the older days. */
  lemma OwnThenOlder(p: Parsers, days: seq<DayFile>, resume: Option<Position>, n: nat)
    requires 0 < n <= |Log(p, days, resume)|
    ensures Follows(p, days[0], Log(p, days[1..], resume), Log(p, days, resume), n)
    ensures n <= |Log(p, days, resume)| - |Log(p, days[1..], resume)| ==> StartOf(days[0], resume).Some?
  {
    if StartOf(days[0], resume).Some? {
      DayLogAfter(p, days[0], StartOf(days[0], resume).value, Log(p, days[1..], resume), n);
    }
  }

  /** Resuming at any record of a log yields exactly the records after it. */
  lemma {:induction false} LogAfter(p: Parsers, days: seq<DayFile>, resume: Option<Position>, n: nat)
    requires NewestFirst(days) && 0 < n <= |Log(p, days, resume)|
    ensures var log := Log(p, days, resume);
      var at := log[n - 1].at;
      Within(at, days) && Log(p, days, Some(at)) == log[n..]
    decreases |days|
  {
    OwnThenOlder(p, days, resume, n);
    var log, rest := Log(p, days, resume), Log(p, days[1..], resume);
    var own, at := |log| - |rest|, log[n - 1].at;
    if n <= own {
      ResumeOnDay(p, days, resume, at);
    } else {
      LogAfter(p, days[1..], resume, n - own);
      ResumeBelowDay(p, days, at);
    }
  }

  lemma LessIrreflexive(a: string)
    ensures !Less(a, a)
  {
    if Less(a, a) { LessIsStrict(a, a); }
  }

  /** A cursor never moves up: what comes below it is on an older day, or earlier in the same file. */
  ghost predicate Below(a: Position, b: Position) {
    Less(a.date, b.date) || (a.date == b.date && a.offset < b.offset)
  }

  lemma {:induction false} AllBelowCursor(p: Parsers, days: seq<DayFile>, c: Position, n: nat)
    requires NewestFirst(days) && 0 < n <= |Log(p, days, Some(c))|
    ensures Below(Log(p, days, Some(c))[n - 1].at, c)
    decreases |days|
  {
    match StartOf(days[0], Some(c))
    case None => AllBelowCursor(p, days[1..], c, n);
    case Some(end) =>
      var rest := Log(p, days[1..], Some(c));
      DayLogAfter(p, days[0], end, rest, n);
      LessIsTotal(days[0].date, c.date);
      var own := |Log(p, days, Some(c))| - |rest|;
      if n > own {
        AllBelowCursor(p, days[1..], c, n - own);
      }
  }

  // ---------- ids ----------

  lemma {:induction false} DecimalHasNoAt(n: nat)
    ensures '@' !in Decimal(n)
  {
    if n >= 10 {
      DecimalHasNoAt(n / 10);
    }
  }

  /** Where the last `@` is. */
  lemma LastAt(a: string, x: string)
    requires '@' !in x
    ensures var s := a + "@" + x;
      s[|a|] == '@' && forall k | |a| < k < |s| :: s[k] != '@'
  {
    var s := a + "@" + x;
    assert forall k | |a| < k < |s| :: s[k] == x[k - |a| - 1];
  }

  /** What follows the last `@` is determined, and so is what comes before. */
  lemma SameParts(a: string, x: string, b: string, y: string)
    requires a + "@" + x == b + "@" + y && '@' !in x && '@' !in y
    ensures a == b && x == y
  {
    var s := a + "@" + x;
    LastAt(a, x);
    LastAt(b, y);
    assert |a| == |b|;
    assert s[..|a|] == a && s[..|b|] == b && s[|a| + 1..] == x && s[|b| + 1..] == y;
  }

  /** An id stands for one place only, whatever the day's name. */
  lemma IdsAreOfPlaces(a: Position, b: Position)
    requires FormatId(a.date, a.offset) == FormatId(b.date, b.offset)
    ensures a == b
  {
    DecimalHasNoAt(a.offset);
    DecimalHasNoAt(b.offset);
    SameParts(a.date, Decimal(a.offset), b.date, Decimal(b.offset));
    DecimalValue(a.offset);
    DecimalValue(b.offset);
  }

  /** No two records of a log have the same id. */
  lemma IdsAreUnique(p: Parsers, days: seq<DayFile>, resume: Option<Position>, i: nat, j: nat)
    requires NewestFirst(days) && i < j < |Log(p, days, resume)|
    ensures Log(p, days, resume)[i].record.id != Log(p, days, resume)[j].record.id
  {
    var log := Log(p, days, resume);
    var at := log[i].at;
    IdsArePlaces(p, days, resume, i + 1);
    IdsArePlaces(p, days, resume, j + 1);
    LogAfter(p, days, resume, i + 1);
    assert log[i + 1..][j - i - 1] == log[j];
    AllBelowCursor(p, days, at, j - i);
    LessIrreflexive(at.date);
    if log[i].record.id == log[j].record.id {
      IdsAreOfPlaces(at, log[j].at);
    }
  }

  // ---------- a log that changes ----------

  /** The days older than `date`. */
  function DaysBelow(days: seq<DayFile>, date: string): seq<DayFile> {
    if days == [] then []
    else if Less(days[0].date, date) then [days[0]] + DaysBelow(days[1..], date)
    else DaysBelow(days[1..], date)
  }

  /** Nothing changed below a place: its day still has a file of the same form, the same up to there, and the older days are
      the same. Anything may happen above it: in newer days, and behind it in its own file. */
  ghost predicate SameBelow(a: seq<DayFile>, b: seq<DayFile>, at: Position) {
    && Within(at, a) && Within(at, b)
    && var f, g := DayAt(a, at.date).value, DayAt(b, at.date).value;
    f.json == g.json && f.content[..at.offset] == g.content[..at.offset]
    && DaysBelow(a, at.date) == DaysBelow(b, at.date)
  }

  lemma {:induction false} AllAreBelow(days: seq<DayFile>, date: string)
    requires forall i | 0 <= i < |days| :: Less(days[i].date, date)
    ensures DaysBelow(days, date) == days
  {
    if days != [] {
      AllAreBelow(days[1..], date);
    }
  }

  /** Days above the date play no part. */
  lemma {:induction false} BelowTail(v: seq<DayFile>, k: nat, date: string)
    requires NewestFirst(v) && k < |v| && !Less(v[k].date, date)
    ensures DaysBelow(v, date) == DaysBelow(v[k + 1..], date)
  {
    if k > 0 {
      assert v[1..][k..] == v[k + 1..];
      BelowTail(v[1..], k - 1, date);
      if Less(v[0].date, date) {
        LessIsTransitive(v[k].date, v[0].date, date);
      }
    }
  }

  /** The log below a place is the rest of its day, and the older days. */
  lemma {:induction false} LogBelow(p: Parsers, days: seq<DayFile>, at: Position)
    requires NewestFirst(days) && Within(at, days)
    ensures Log(p, days, Some(at)) == DayLog(p, DayAt(days, at.date).value, at.offset, Log(p, DaysBelow(days, at.date), None))
  {
    LessIrreflexive(at.date);
    if days[0].date == at.date {
      BelowStart(p, days, Some(at));
      AllAreBelow(days[1..], at.date);
    } else {
      WithinTail(at, days);
      LessIsStrict(at.date, days[0].date);
      LogBelow(p, days[1..], at);
    }
  }

  /** When nothing changed below a place, the log below it is the same. */
  lemma StillThere(p: Parsers, a: seq<DayFile>, b: seq<DayFile>, at: Position)
    requires NewestFirst(a) && NewestFirst(b) && SameBelow(a, b, at)
    ensures Log(p, b, Some(at)) == Log(p, a, Some(at))
  {
    LogBelow(p, a, at);
    LogBelow(p, b, at);
    DayAtIn(a, at.date);
    DayAtIn(b, at.date);
    DayLogPrefix(p, DayAt(a, at.date).value, DayAt(b, at.date).value, at.offset, Log(p, DaysBelow(a, at.date), None));
  }

  lemma {:induction false} DayLogPrefix(p: Parsers, a: DayFile, b: DayFile, pos: nat, rest: seq<Spot>)
    requires a.date == b.date && a.json == b.json
    requires pos <= |a.content| && pos <= |b.content| && a.content[..pos] == b.content[..pos]
    ensures DayLog(p, a, pos, rest) == DayLog(p, b, pos, rest)
    decreases pos
  {
    LastRecordPrefix(p, a, b, pos, []);
    match LastRecord(p, a, pos, [])
    case None =>
    case Some(e) =>
      assert a.content[..e.offset] == a.content[..pos][..e.offset] == b.content[..e.offset];
      DayLogPrefix(p, a, b, e.offset, rest);
  }

  /** In particular: new days may appear on top, and the newest day's file may get longer. */
  ghost predicate Grows(a: seq<DayFile>, b: seq<DayFile>) {
    a != [] ==> exists k | 0 <= k < |b| :: GrowsAt(a, b, k)
  }

  ghost predicate GrowsAt(a: seq<DayFile>, b: seq<DayFile>, k: nat) {
    && a != [] && k < |b| && b[k + 1..] == a[1..]
    && b[k].date == a[0].date && b[k].json == a[0].json && a[0].content <= b[k].content
  }

  /** Growth changes nothing below any place. */
  lemma GrowthKeepsBelow(a: seq<DayFile>, b: seq<DayFile>, at: Position)
    requires NewestFirst(a) && NewestFirst(b) && Grows(a, b) && Within(at, a)
    ensures SameBelow(a, b, at)
  {
    var k :| 0 <= k < |b| && GrowsAt(a, b, k);
    DayAtFirst(b, k);
    if at.date == a[0].date {
      LessIrreflexive(at.date);
      assert a[0].content[..at.offset] == b[k].content[..at.offset];
    } else {
      WithinTail(at, a);
      DayAtBelow(b, k, at.date);
      LessIsStrict(at.date, a[0].date);
    }
    BelowTail(a, 0, at.date);
    BelowTail(b, k, at.date);
  }

  // ---------- whole runs of pages ----------

  /** One call: the days of the folder as they then are, a page limit, a block size and a byte budget. */
  datatype Call = Call(days: seq<DayFile>, limit: Option<nat>, block: nat, budget: nat)

  /** One file a day, newest first; what the file system guarantees (lengths fit 64 bits); and what a cursor needs: no `@` in a day's name. */
  ghost predicate Readable(days: seq<DayFile>) {
    NewestFirst(days) && forall i | 0 <= i < |days| :: '@' !in days[i].date && |days[i].content| < U64_LIMIT
  }

  ghost predicate Answers(env: Env, f: Filters, call: Call, cursor: Option<string>, page: Page) {
    Answer(env, call.days, Query(Ok(f), call.limit, cursor), call.block, call.budget) == Ok(page)
  }

  /** Calls in a row with the pages they answered. */
  datatype Run = First(call: Call, page: Page) | Then(before: Run, call: Call, page: Page)

  /** Nothing changed below the place a cursor stands for. */
  ghost predicate StillBelow(a: seq<DayFile>, b: seq<DayFile>, cursor: string) {
    SplitCursor(cursor).Ok? ==> SameBelow(a, b, SplitCursor(cursor).value)
  }

  /** The pages got by following the cursor from none, while nothing changes below it between calls. */
  ghost predicate IsRun(env: Env, f: Filters, run: Run) {
    && Readable(run.call.days)
    && match run
      case First(call, page) => Answers(env, f, call, None, page)
      case Then(before, call, page) =>
        && IsRun(env, f, before) && before.page.nextCursor.Some?
        && StillBelow(before.call.days, call.days, before.page.nextCursor.value)
        && Answers(env, f, call, before.page.nextCursor, page)
  }

  /** All records of a run, in the order they were shown. */
  function RecordsOf(run: Run): seq<Record> {
    match run
    case First(_, page) => page.records
    case Then(before, _, page) => RecordsOf(before) + page.records
  }

  function Pages(run: Run): nat {
    match run
    case First(_, _) => 1
    case Then(before, _, _) => Pages(before) + 1
  }

  /** The days as they were at the first call. */
  function FirstDays(run: Run): seq<DayFile> {
    match run
    case First(call, _) => call.days
    case Then(before, _, _) => FirstDays(before)
  }

  /** The log as it was at the first call, newest record first. */
  function FirstLog(p: Parsers, run: Run): seq<Spot> {
    Log(p, FirstDays(run), None)
  }

  /** One page: the front of what was left, and a cursor to the rest. */
  lemma PageStep(env: Env, f: Filters, call: Call, cursor: Option<string>, resume: Option<Position>, page: Page)
    returns (n: nat, at: Position)
    requires NewestFirst(call.days) && Answers(env, f, call, cursor, page) && Resume(cursor) == Ok(resume)
    ensures var log := Log(env.p, call.days, resume);
      n <= |log| && match page.nextCursor
      case None => page.records == Scan(env, f, log)
      case Some(id) =>
        && n > 0 && page.records + Scan(env, f, log[n..]) == Scan(env, f, log)
        && id == FormatId(at.date, at.offset) && Within(at, call.days) && Log(env.p, call.days, Some(at)) == log[n..]
        && (resume.Some? ==> Below(at, resume.value))
  {
    var b := Max(call.block, RevLines.MIN_BLOCK);
    var items := CallItems(env.p, call.days, resume, b, 0);
    CallSpots(env.p, call.days, resume, b, 0);
    n := CutShape(env, f, PageLimit(call.limit), call.budget, items, EMPTY_PAGE);
    assert page.records + [] == page.records && [] + Scan(env, f, Spots(items)) == Scan(env, f, Spots(items));
    at := Position("", 0);
    if page.nextCursor.Some? {
      var log := Log(env.p, call.days, resume);
      at := log[n - 1].at;
      LogAfter(env.p, call.days, resume, n);
      IdsArePlaces(env.p, call.days, resume, n);
      if resume.Some? {
        AllBelowCursor(env.p, call.days, resume.value, n);
      }
    }
  }

  /** The cursor of a place in a readable log leads back to it. */
  lemma ResumeAt(days: seq<DayFile>, at: Position)
    requires Readable(days) && Within(at, days)
    ensures Resume(Some(FormatId(at.date, at.offset))) == Ok(Some(at))
  {
    DayAtIn(days, at.date);
    CursorRoundTrip(at.date, at.offset);
  }

  /** The records so far and what the cursor leads to (after `m` records) make up the log as it was at the first page. */
  ghost predicate SoFar(env: Env, f: Filters, whole: seq<Spot>, records: seq<Record>, days: seq<DayFile>, cursor: Option<string>, m: nat, at: Position) {
    match cursor
    case None => records == Scan(env, f, whole)
    case Some(id) =>
      && m <= |whole| && records + Scan(env, f, whole[m..]) == Scan(env, f, whole)
      && id == FormatId(at.date, at.offset) && Within(at, days) && Log(env.p, days, Some(at)) == whole[m..]
  }

  /** One more page, on the log as it then is. */
  lemma OneMorePage(env: Env, f: Filters, whole: seq<Spot>, records: seq<Record>, days: seq<DayFile>, m: nat, at: Position,
                    call: Call, cursor: Option<string>, page: Page) returns (m': nat, at': Position)
    requires SoFar(env, f, whole, records, days, cursor, m, at) && cursor.Some? && Readable(days)
    requires Readable(call.days) && StillBelow(days, call.days, cursor.value) && Answers(env, f, call, cursor, page)
    ensures SoFar(env, f, whole, records + page.records, call.days, page.nextCursor, m', at')
    ensures if page.nextCursor.Some? then m' > m else m <= |whole|
  {
    ResumeAt(days, at);
    StillThere(env.p, days, call.days, at);
    var rest := whole[m..];
    var n;
    n, at' := PageStep(env, f, call, cursor, Some(at), page);
    m' := m + n;
    assert rest[n..] == whole[m'..];
    if page.nextCursor.Some? {
      Associative(records, page.records, Scan(env, f, whole[m'..]));
    }
  }

  /** This holds after every page, and every page but the last moves on. */
  lemma {:induction false} RunSoFar(env: Env, f: Filters, run: Run) returns (m: nat, at: Position)
    requires IsRun(env, f, run)
    ensures SoFar(env, f, FirstLog(env.p, run), RecordsOf(run), run.call.days, run.page.nextCursor, m, at)
    ensures if run.page.nextCursor.Some? then Pages(run) <= m else Pages(run) <= |FirstLog(env.p, run)| + 1
  {
    match run
    case First(call, page) =>
      m, at := PageStep(env, f, call, None, None, page);
    case Then(before, call, page) =>
      m, at := RunSoFar(env, f, before);
      m, at := OneMorePage(env, f, FirstLog(env.p, run), RecordsOf(before), before.call.days, m, at,
        call, before.page.nextCursor, page);
  }

  /** Paging is exact, also while the log changes above the cursor: the pages together are the filtered scan, newest first, of the log as it
      was written up to the first call. */
  lemma PagingIsExact(env: Env, f: Filters, run: Run)
    requires IsRun(env, f, run) && run.page.nextCursor.None?
    ensures RecordsOf(run) == Scan(env, f, Reverse(WrittenLog(env.p, FirstDays(run))))
  {
    var _, _ := RunSoFar(env, f, run);
    LogIsWrittenLogReversed(env.p, FirstDays(run));
  }

  /** When the timestamps are in order, that is every record of the time window that matches the filters. */
  lemma PagingShowsTheWindow(env: Env, f: Filters, run: Run)
    requires IsRun(env, f, run) && run.page.nextCursor.None?
    requires TimeOrdered(env, Reverse(WrittenLog(env.p, FirstDays(run))))
    ensures RecordsOf(run) == InWindow(env, f, Reverse(WrittenLog(env.p, FirstDays(run))))
  {
    PagingIsExact(env, f, run);
    EarlyExitIsSound(env, f, Reverse(WrittenLog(env.p, FirstDays(run))));
  }

  /** Paging ends: there are at most as many pages as records, plus one. */
  lemma PagingEnds(env: Env, f: Filters, run: Run)
    requires IsRun(env, f, run)
    ensures Pages(run) <= |FirstLog(env.p, run)| + 1
  {
    var _, _ := RunSoFar(env, f, run);
  }

  /** Paging never gets stuck: while there is a cursor, any next call on the log as it then is answers with a page. */
  lemma PagingGoesOn(env: Env, f: Filters, run: Run, next: Call) returns (page: Page)
    requires IsRun(env, f, run) && run.page.nextCursor.Some?
    requires Readable(next.days) && StillBelow(run.call.days, next.days, run.page.nextCursor.value)
    ensures IsRun(env, f, Then(run, next, page))
  {
    var m, at := RunSoFar(env, f, run);
    ResumeAt(run.call.days, at);
    page := Answer(env, next.days, Query(Ok(f), next.limit, run.page.nextCursor), next.block, next.budget).value;
  }

  /** While the log only grows, nothing changes below the cursor. */
  lemma GrowthIsFine(env: Env, f: Filters, run: Run, days: seq<DayFile>)
    requires IsRun(env, f, run) && run.page.nextCursor.Some?
    requires NewestFirst(days) && Grows(run.call.days, days)
    ensures StillBelow(run.call.days, days, run.page.nextCursor.value)
  {
    var m, at := RunSoFar(env, f, run);
    ResumeAt(run.call.days, at);
    GrowthKeepsBelow(run.call.days, days, at);
  }

  /** The next cursor of a call is below the one passed in, whatever the limit, the budget and the filters. */
  lemma CursorDescends(env: Env, f: Filters, call: Call, cursor: string, c: Position, page: Page) returns (at: Position)
    requires NewestFirst(call.days) && Resume(Some(cursor)) == Ok(Some(c))
    requires Answers(env, f, call, Some(cursor), page) && page.nextCursor.Some?
    ensures page.nextCursor == Some(FormatId(at.date, at.offset)) && Below(at, c)
  {
    var n;
    n, at := PageStep(env, f, call, Some(cursor), Some(c), page);
  }

  /** A day whose name has an `@`: the cursor of any of its records is refused by the next call. */
  lemma AtSignBreaksPaging(env: Env, f: Filters, call: Call, at: Position)
    requires at.offset < U64_LIMIT
    ensures Answer(env, call.days, Query(Ok(f), call.limit, Some(FormatId(at.date, at.offset))), call.block, call.budget).Err?
      <==> '@' in at.date
  {
    CursorRoundTrip(at.date, at.offset);
  }

  lemma UpToDotExample()
    ensures UpToDot("a@b.log") == "a@b"
  {
    assert "a@b.log"[1..] == "@b.log" && "@b.log"[1..] == "b.log" && "b.log"[1..] == ".log";
    assert UpToDot(".log") == "";
    assert UpToDot("b.log") == "b";
    assert UpToDot("@b.log") == "@b";
  }

  /** For instance, a file named `ufop.a@b.log` stands for such a day. */
  lemma AtSignExample()
    ensures DayOf("ufop.a@b.log") == "a@b" && SplitCursor(FormatId("a@b", 7)).Err?
  {
    assert "ufop.a@b.log"[|FILE_PREFIX| + 1..] == "a@b.log";
    UpToDotExample();
    CursorRoundTrip("a@b", 7);
    assert "a@b"[1] == '@';
  }

  // ---------- the early exit ----------

  predicate Wants(env: Env, f: Filters, r: Record) {
    !Older(env, f, r) && Keeps(env, f, r)
  }

  /** The records between `since` and `until`, both included, that match the filters. */
  function InWindow(env: Env, f: Filters, log: seq<Spot>): seq<Record> {
    if log == [] then []
    else (if Wants(env, f, log[0].record) then [log[0].record] else []) + InWindow(env, f, log[1..])
  }

  /** Every filter is optional, and they combine with AND: a record is wanted exactly when it is by each of them alone. */
  lemma FiltersCombine(env: Env, f: Filters, r: Record)
    ensures Wants(env, f, r) <==>
      && Wants(env, NO_FILTERS.(min := f.min), r) && Wants(env, NO_FILTERS.(source := f.source), r)
      && Wants(env, NO_FILTERS.(since := f.since), r) && Wants(env, NO_FILTERS.(until := f.until), r)
      && Wants(env, NO_FILTERS.(text := f.text), r)
    ensures Wants(env, NO_FILTERS, r)
  {
  }

  /** A filter text occurs in `text`, once that is in lower case. */
  ghost predicate OccursInLower(env: Env, text: string, part: string) {
    Occurs(if text in env.lower then env.lower[text] else text, part)
  }

  /** What a query lets through, from the record's own fields: at least the level asked for, where one that is not known
      counts as 0; the source's text in the target, and the filter's text in the message or in the fields; between `since` and
      `until`, both included, where a record without a readable time passes. */
  lemma WantedExactlyWhen(env: Env, f: Filters, r: Record)
    ensures Wants(env, f, r) <==>
      && (f.min.Some? ==> (if r.event.level in env.rank then env.rank[r.event.level] else 0) >= f.min.value)
      && (f.source.Some? ==> OccursInLower(env, r.event.target, f.source.value))
      && (f.text.Some? ==>
        OccursInLower(env, r.event.message, f.text.value)
        || (r.event.fields.Some? && OccursInLower(env, r.event.fields.value, f.text.value)))
      && (r.event.ts in env.instant && f.since.Some? ==> f.since.value <= env.instant[r.event.ts])
      && (r.event.ts in env.instant && f.until.Some? ==> env.instant[r.event.ts] <= f.until.value)
  {
    if f.source.Some? {
      MentionsExactlyWhen(env, r.event.target, f.source.value);
    }
    if f.text.Some? {
      MentionsExactlyWhen(env, r.event.message, f.text.value);
      if r.event.fields.Some? {
        MentionsExactlyWhen(env, r.event.fields.value, f.text.value);
      }
    }
  }

  lemma MentionsExactlyWhen(env: Env, text: string, part: string)
    ensures Mentions(env, text, part) <==> OccursInLower(env, text, part)
  {
    ContainsExactlyWhen(if text in env.lower then env.lower[text] else text, part);
  }

  /** The level filter `warn` keeps warnings and errors. */
  lemma WarnExample(env: Env, r: Record)
    requires env.rank == map["TRACE" := 0, "DEBUG" := 1, "INFO" := 2, "WARN" := 3, "ERROR" := 4]
    ensures Wants(env, NO_FILTERS.(min := Some(3)), r) <==> r.event.level == "WARN" || r.event.level == "ERROR"
  {
    WantedExactlyWhen(env, NO_FILTERS.(min := Some(3)), r);
  }

  /** Reading one record older at a time: it is shown if it is wanted and none before it was older than `since`. */
  lemma {:induction false} ScanGrows(env: Env, f: Filters, log: seq<Spot>, s: Spot)
    ensures Scan(env, f, log + [s]) == Scan(env, f, log) +
      if Wants(env, f, s.record) && forall i | 0 <= i < |log| :: !Older(env, f, log[i].record) then [s.record] else []
  {
    var all := log + [s];
    ScanStep(env, f, all);
    if log == [] {
      assert all[1..] == [];
      assert Scan(env, f, []) == [];
    } else {
      var rest := log[1..];
      assert all[1..] == rest + [s] && all[0] == log[0];
      assert forall i | 0 < i < |log| :: log[i] == rest[i - 1];
      assert forall i | 0 <= i < |rest| :: rest[i] == log[i + 1];
      ScanStep(env, f, log);
      ScanGrows(env, f, rest, s);
      if !Older(env, f, log[0].record) {
        Associative(if Keeps(env, f, log[0].record) then [log[0].record] else [], Scan(env, f, rest),
          if Wants(env, f, s.record) && forall i | 0 <= i < |rest| :: !Older(env, f, rest[i].record) then [s.record] else []);
      }
    }
  }

  lemma {:induction false} WindowGrows(env: Env, f: Filters, log: seq<Spot>, s: Spot)
    ensures InWindow(env, f, log + [s]) == InWindow(env, f, log) + if Wants(env, f, s.record) then [s.record] else []
  {
    var all := log + [s];
    if log == [] {
      assert all[1..] == [];
    } else {
      assert all[1..] == log[1..] + [s] && all[0] == log[0];
      WindowGrows(env, f, log[1..], s);
      Associative(if Wants(env, f, log[0].record) then [log[0].record] else [], InWindow(env, f, log[1..]),
        if Wants(env, f, s.record) then [s.record] else []);
    }
  }

  /** No wanted record is read after one before `since`. */
  ghost predicate NoneWantedAfterOlder(env: Env, f: Filters, log: seq<Spot>) {
    forall i, j | 0 <= i < j < |log| :: Older(env, f, log[i].record) ==> !Wants(env, f, log[j].record)
  }

  lemma {:induction false} EmptyWindow(env: Env, f: Filters, log: seq<Spot>)
    ensures InWindow(env, f, log) == [] <==> forall i | 0 <= i < |log| :: !Wants(env, f, log[i].record)
  {
    if log != [] {
      EmptyWindow(env, f, log[1..]);
      assert forall i | 0 < i < |log| :: log[i] == log[1..][i - 1];
    }
  }

  /** Stopping at the first record before `since` loses nothing exactly when no wanted record comes later. */
  lemma {:induction false} EarlyExitExactlyWhen(env: Env, f: Filters, log: seq<Spot>)
    ensures Scan(env, f, log) == InWindow(env, f, log) <==> NoneWantedAfterOlder(env, f, log)
  {
    if log != [] {
      var rest := log[1..];
      ScanStep(env, f, log);
      assert forall i | 0 < i < |log| :: log[i] == rest[i - 1];
      if Older(env, f, log[0].record) {
        EmptyWindow(env, f, rest);
        assert forall j | 0 <= j < |rest| :: rest[j] == log[j + 1];
      } else {
        EarlyExitExactlyWhen(env, f, rest);
        var one := if Keeps(env, f, log[0].record) then [log[0].record] else [];
        SamePrefix(one, Scan(env, f, rest), InWindow(env, f, rest));
        NoneWantedTail(env, f, log);
      }
    }
  }

  lemma NoneWantedTail(env: Env, f: Filters, log: seq<Spot>)
    requires log != [] && !Older(env, f, log[0].record)
    ensures NoneWantedAfterOlder(env, f, log) <==> NoneWantedAfterOlder(env, f, log[1..])
  {
    var rest := log[1..];
    assert forall i | 0 < i < |log| :: log[i] == rest[i - 1];
    assert forall i | 0 <= i < |rest| :: rest[i] == log[i + 1];
  }

  lemma SamePrefix<T>(one: seq<T>, a: seq<T>, b: seq<T>)
    ensures one + a == one + b <==> a == b
  {
    assert (one + a)[|one|..] == a && (one + b)[|one|..] == b;
  }

  /** For instance, a record of time 2 read after one of time 1 is lost to a query since 2. */
  lemma EarlyExitExample(env: Env, early: Spot, late: Spot)
    requires Instant(env, early.record) == Some(1) && Instant(env, late.record) == Some(2)
    ensures var f := Filters(None, None, Some(2), None, None);
      Scan(env, f, [early, late]) == [] && InWindow(env, f, [early, late]) == [late.record]
  {
    var f := Filters(None, None, Some(2), None, None);
    assert [early, late][1..] == [late] && [late][1..] == [];
    assert InWindow(env, f, [late]) == [late.record] + [];
  }

  /** Every timestamp parses, and none is later than one read before it. */
  ghost predicate TimeOrdered(env: Env, log: seq<Spot>) {
    && (forall i | 0 <= i < |log| :: Instant(env, log[i].record).Some?)
    && (forall i, j | 0 <= i < j < |log| :: Instant(env, log[i].record).value >= Instant(env, log[j].record).value)
  }

  /** In particular nothing is lost from a log in time order. */
  lemma EarlyExitIsSound(env: Env, f: Filters, log: seq<Spot>)
    requires TimeOrdered(env, log)
    ensures Scan(env, f, log) == InWindow(env, f, log)
  {
    EarlyExitExactlyWhen(env, f, log);
  }

  // ---------- the whole log, forwards ----------

  function ForwardSpots(d: DayFile, entries: seq<Entry>): seq<Spot> {
    if entries == [] then [] else [Spot(Position(d.date, entries[0].offset), entries[0].record)] + ForwardSpots(d, entries[1..])
  }

  /** The places of the records are theirs. */
  lemma {:induction false} ForwardSpotsAre(d: DayFile, entries: seq<Entry>)
    ensures |ForwardSpots(d, entries)| == |entries|
    ensures forall i | 0 <= i < |entries| ::
      ForwardSpots(d, entries)[i] == Spot(Position(d.date, entries[i].offset), entries[i].record)
  {
    if entries != [] {
      ForwardSpotsAre(d, entries[1..]);
    }
  }

  lemma {:induction false} ForwardSpotsConcat(d: DayFile, a: seq<Entry>, b: seq<Entry>)
    ensures ForwardSpots(d, a + b) == ForwardSpots(d, a) + ForwardSpots(d, b)
  {
    if a == [] {
      assert a + b == b;
    } else {
      ForwardSpotsConcat(d, a[1..], b);
      assert (a + b)[1..] == a[1..] + b && (a + b)[0] == a[0];
      Associative([Spot(Position(d.date, a[0].offset), a[0].record)], ForwardSpots(d, a[1..]), ForwardSpots(d, b));
    }
  }

  /** The log read as it was written: oldest day first, each file split into lines and grouped into records from the front. */
  function WrittenLog(p: Parsers, days: seq<DayFile>): seq<Spot> {
    if days == [] then []
    else
      var d := days[0];
      WrittenLog(p, days[1..]) + ForwardSpots(d, ForwardRecords(p, d, ForwardLines(d.content, 0, |d.content|)))
  }

  lemma {:induction false} DayLogIsBackRecords(p: Parsers, d: DayFile, pos: nat, rest: seq<Spot>)
    requires pos <= |d.content|
    ensures DayLog(p, d, pos, rest) == ForwardSpots(d, BackRecords(p, d, pos)) + rest
    decreases pos
  {
    match LastRecord(p, d, pos, [])
    case None =>
    case Some(e) =>
      DayLogIsBackRecords(p, d, e.offset, rest);
      var one := [Spot(Position(d.date, e.offset), e.record)];
      assert BackRecords(p, d, pos)[1..] == BackRecords(p, d, e.offset);
      Associative(one, ForwardSpots(d, BackRecords(p, d, e.offset)), rest);
  }

  lemma {:induction false} ReverseSpots(d: DayFile, entries: seq<Entry>)
    ensures ForwardSpots(d, Reverse(entries)) == Reverse(ForwardSpots(d, entries))
  {
    if entries != [] {
      ReverseSpots(d, entries[1..]);
      ForwardSpotsConcat(d, Reverse(entries[1..]), [entries[0]]);
    }
  }

  /** The log the pages are cut from is the written log, backwards. */
  lemma {:induction false} LogIsWrittenLogReversed(p: Parsers, days: seq<DayFile>)
    ensures Log(p, days, None) == Reverse(WrittenLog(p, days))
  {
    if days != [] {
      var d := days[0];
      var entries := ForwardRecords(p, d, ForwardLines(d.content, 0, |d.content|));
      LogIsWrittenLogReversed(p, days[1..]);
      DayLogIsBackRecords(p, d, |d.content|, Log(p, days[1..], None));
      BackRecordsAreForwardReversed(p, d, |d.content|);
      ReverseSpots(d, entries);
      ReverseConcat(WrittenLog(p, days[1..]), ForwardSpots(d, entries));
    }
  }
}
