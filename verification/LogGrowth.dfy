/** Which changes of the log folder let its days grow. */
module LogGrowth {
  import opened Wrappers
  import opened Ordering
  import opened LogRecords
  import opened LogDirectory
  import opened Paging

  /** The files that stand for the days: new days are newer than all others, and only the newest day's file gets longer. */
  ghost predicate FolderGrows(a: seq<DirFile>, b: seq<DirFile>) {
    && (forall date | FileFor(a, date).Some? :: FileGrows(FileFor(a, date).value, FileFor(b, date)))
    && (forall date, other | FileFor(a, date).Some? && FileFor(b, other) != FileFor(a, other) :: date == other || Less(date, other))
  }

  ghost predicate FileGrows(f: DayFile, g: Option<DayFile>) {
    g.Some? && g.value.date == f.date && g.value.json == f.json && f.content <= g.value.content
  }

  lemma FilesGrowDays(a: seq<DirFile>, b: seq<DirFile>)
    requires FolderGrows(a, b)
    ensures Grows(Days(a), Days(b))
  {
    var v, w := Days(a), Days(b);
    DaysAre(a);
    DaysAre(b);
    if v != [] {
      var date := v[0].date;
      DayAtFirst(v, 0);
      assert FileFor(a, date) == Some(v[0]);
      DayAtIn(w, date);
      assert DayAt(w, date) == FileFor(b, date);
      var k :| 0 <= k < |w| && w[k] == FileFor(b, date).value;
      forall other ensures DayAt(w[k + 1..], other) == DayAt(v[1..], other) {
        DayAtBelow(w, k, other);
        DayAtBelow(v, 0, other);
        if Less(other, date) { LessIsStrict(other, date); }
      }
      SameDays(w[k + 1..], v[1..]);
      assert GrowsAt(v, w, k);
    }
  }

  /** Growth of the days, date by date. */
  lemma GrownDay(v: seq<DayFile>, w: seq<DayFile>, k: nat, date: string)
    requires NewestFirst(v) && NewestFirst(w) && GrowsAt(v, w, k)
    ensures Less(date, v[0].date) ==> DayAt(w, date) == DayAt(v, date)
    ensures DayAt(v, date).Some? ==> date == v[0].date || Less(date, v[0].date)
    ensures DayAt(v, v[0].date) == Some(v[0]) && DayAt(w, v[0].date) == Some(w[k])
  {
    DayAtFirst(v, 0);
    DayAtFirst(w, k);
    DayAtBelow(v, 0, date);
    DayAtBelow(w, k, date);
    if DayAt(v, date).Some? && date != v[0].date {
      DayAtIn(v[1..], date);
    }
  }

  lemma DaysGrowFiles(a: seq<DirFile>, b: seq<DirFile>)
    requires Grows(Days(a), Days(b))
    ensures FolderGrows(a, b)
  {
    var v, w := Days(a), Days(b);
    DaysAre(a);
    DaysAre(b);
    if v != [] {
      var k :| 0 <= k < |w| && GrowsAt(v, w, k);
      forall date | FileFor(a, date).Some? ensures FileGrows(FileFor(a, date).value, FileFor(b, date)) {
        assert FileFor(a, date) == DayAt(v, date) && FileFor(b, date) == DayAt(w, date);
        GrownDay(v, w, k, date);
      }
      forall date, other | FileFor(a, date).Some? && FileFor(b, other) != FileFor(a, other)
        ensures date == other || Less(date, other)
      {
        assert FileFor(a, date) == DayAt(v, date);
        assert FileFor(a, other) == DayAt(v, other) && FileFor(b, other) == DayAt(w, other);
        GrownDay(v, w, k, date);
        GrownDay(v, w, k, other);
        LessIsTotal(other, v[0].date);
        if Less(date, v[0].date) && Less(v[0].date, other) {
          LessIsTransitive(date, v[0].date, other);
        }
      }
    } else {
      assert forall date :: DayAt(v, date) == FileFor(a, date);
    }
  }

  /** The days of a folder grow exactly when the files that stand for them do. */
  lemma DaysGrowExactlyWhen(a: seq<DirFile>, b: seq<DirFile>)
    ensures Grows(Days(a), Days(b)) <==> FolderGrows(a, b)
  {
    if FolderGrows(a, b) {
      FilesGrowDays(a, b);
    } else if Grows(Days(a), Days(b)) {
      DaysGrowFiles(a, b);
    }
  }

  lemma GrowsTwice(a: seq<DirFile>, b: seq<DirFile>, c: seq<DirFile>)
    requires FolderGrows(a, b) && FolderGrows(b, c)
    ensures FolderGrows(a, c)
  {
    forall date | FileFor(a, date).Some? ensures FileGrows(FileFor(a, date).value, FileFor(c, date)) {
      assert FileGrows(FileFor(a, date).value, FileFor(b, date));
      assert FileGrows(FileFor(b, date).value, FileFor(c, date));
    }
    forall date, other | FileFor(a, date).Some? && FileFor(c, other) != FileFor(a, other)
      ensures date == other || Less(date, other)
    {
      assert FileGrows(FileFor(a, date).value, FileFor(b, date));
      assert FileFor(b, other) != FileFor(a, other) || FileFor(c, other) != FileFor(b, other);
    }
  }

  // ---------- one log of a kind a day ----------

  /** No day has two logs of one kind. */
  ghost predicate OneLogEach(dir: seq<DirFile>) {
    forall i, j, json | 0 <= i < j < |dir| && IsLog(dir[i], json) && IsLog(dir[j], json) :: DayOf(dir[i].name) != DayOf(dir[j].name)
  }

  lemma {:induction false} KindHas(dir: seq<DirFile>, json: bool, f: DirFile)
    ensures f in OfKind(dir, json) <==> f in dir && IsLog(f, json)
  {
    if dir != [] {
      KindHas(dir[1..], json, f);
      assert dir == [dir[0]] + dir[1..];
    }
  }

  lemma ListingHas(dir: seq<DirFile>, json: bool, f: DirFile)
    ensures f in Listing(dir, json) <==> f in dir && IsLog(f, json)
  {
    KindHas(dir, json, f);
    SortIsPermutation(OfKind(dir, json), ByTime());
    assert f in multiset(Listing(dir, json)) <==> f in multiset(OfKind(dir, json));
  }

  /** The last file of the listing for a day. */
  function LastFile(files: seq<DirFile>, date: string): Option<DirFile> {
    if files == [] then None
    else if DayOf(files[|files| - 1].name) == date then Some(files[|files| - 1])
    else LastFile(files[..|files| - 1], date)
  }

  lemma {:induction false} LastFileIs(files: seq<DirFile>, json: bool, date: string)
    ensures var f := LastFile(files, date);
      && LastOfDay(files, json, date) == (if f.Some? then Some(ToDay(f.value, json)) else None)
      && (f.Some? ==> f.value in files && DayOf(f.value.name) == date)
      && (f.None? ==> forall g | g in files :: DayOf(g.name) != date)
  {
    if files != [] {
      var n := |files| - 1;
      LastFileIs(files[..n], json, date);
      assert files == files[..n] + [files[n]];
    }
  }

  /** With one log of a kind a day, whichever is last in the listing, whatever the times. */
  lemma TheLogStands(dir: seq<DirFile>, json: bool, f: DirFile)
    requires OneLogEach(dir) && f in dir && IsLog(f, json)
    ensures LastOfDay(Listing(dir, json), json, DayOf(f.name)) == Some(ToDay(f, json))
  {
    LastFileIs(Listing(dir, json), json, DayOf(f.name));
    ListingHas(dir, json, f);
    var g := LastFile(Listing(dir, json), DayOf(f.name)).value;
    ListingHas(dir, json, g);
    var i :| 0 <= i < |dir| && dir[i] == f;
    var j :| 0 <= j < |dir| && dir[j] == g;
    assert i < j || i == j || j < i;
  }

  lemma NoLogStands(dir: seq<DirFile>, json: bool, date: string)
    requires forall f | f in dir && IsLog(f, json) :: DayOf(f.name) != date
    ensures LastOfDay(Listing(dir, json), json, date) == None
  {
    LastFileIs(Listing(dir, json), json, date);
    var f := LastFile(Listing(dir, json), date);
    if f.Some? {
      ListingHas(dir, json, f.value);
    }
  }

  /** Two folders with the same logs of a kind for a day have the same file for it. */
  lemma SameStands(a: seq<DirFile>, b: seq<DirFile>, json: bool, date: string)
    requires OneLogEach(a) && OneLogEach(b)
    requires forall f | IsLog(f, json) && DayOf(f.name) == date :: f in a <==> f in b
    ensures LastOfDay(Listing(a, json), json, date) == LastOfDay(Listing(b, json), json, date)
  {
    if f :| f in a && IsLog(f, json) && DayOf(f.name) == date {
      TheLogStands(a, json, f);
      TheLogStands(b, json, f);
    } else {
      NoLogStands(a, json, date);
      NoLogStands(b, json, date);
    }
  }

  /** File `i` stands for its day: a JSON log, or a human one without a JSON twin. */
  predicate Stands(dir: seq<DirFile>, i: nat)
    requires i < |dir|
  {
    var f := FileFor(dir, DayOf(dir[i].name));
    IsLog(dir[i], true) || (IsLog(dir[i], false) && !(f.Some? && f.value.json))
  }

  /** No other day is newer. */
  ghost predicate NewestDay(dir: seq<DirFile>, date: string) {
    forall other | FileFor(dir, other).Some? :: other == date || Less(other, date)
  }

  lemma AppendedListing(dir: seq<DirFile>, i: nat, g: DirFile, json: bool, date: string)
    requires OneLogEach(dir) && i < |dir| && g.name == dir[i].name
    ensures OneLogEach(dir[i := g])
    ensures LastOfDay(Listing(dir[i := g], json), json, date) ==
      if IsLog(g, json) && DayOf(g.name) == date then Some(ToDay(g, json)) else LastOfDay(Listing(dir, json), json, date)
  {
    var b := dir[i := g];
    assert forall j, kind | 0 <= j < |dir| :: b[j].name == dir[j].name && (IsLog(b[j], kind) <==> IsLog(dir[j], kind));
    assert b[i] == g;
    if IsLog(g, json) && DayOf(g.name) == date {
      TheLogStands(b, json, g);
    } else {
      forall f | IsLog(f, json) && DayOf(f.name) == date ensures f in dir <==> f in b {
        if f in dir {
          var j :| 0 <= j < |dir| && dir[j] == f;
          assert b[j] == f;
        }
      }
      SameStands(b, dir, json, date);
    }
  }

  /** What an append does to the files that stand for the days. */
  lemma AppendedFile(dir: seq<DirFile>, i: nat, g: DirFile, date: string)
    requires OneLogEach(dir) && i < |dir| && g.name == dir[i].name
    ensures FileFor(dir[i := g], date) ==
      if Stands(dir, i) && date == DayOf(g.name) then Some(ToDay(g, IsLog(g, true))) else FileFor(dir, date)
    ensures Stands(dir, i) ==> FileFor(dir, DayOf(g.name)) == Some(ToDay(dir[i], IsLog(g, true)))
  {
    AppendedListing(dir, i, g, true, date);
    AppendedListing(dir, i, g, false, date);
    if IsLog(dir[i], true) {
      TheLogStands(dir, true, dir[i]);
    }
    if IsLog(dir[i], false) {
      TheLogStands(dir, false, dir[i]);
    }
    LastFileIs(Listing(dir, true), true, DayOf(g.name));
  }

  /** The same files stand for all days but one, for which `g` does. */
  ghost predicate OneDayChanges(a: seq<DirFile>, b: seq<DirFile>, d: string, g: DayFile) {
    g.date == d && forall date :: FileFor(b, date) == if date == d then Some(g) else FileFor(a, date)
  }

  lemma OneDayGrowsExactlyWhen(a: seq<DirFile>, b: seq<DirFile>, d: string, g: DayFile)
    requires OneDayChanges(a, b, d, g) && FileFor(a, d) != Some(g)
    ensures FolderGrows(a, b) <==> NewestDay(a, d) && (FileFor(a, d).Some? ==> FileGrows(FileFor(a, d).value, Some(g)))
  {
    FilesHaveDates(a);
    if FolderGrows(a, b) {
      assert FileFor(b, d) == Some(g);
    }
  }

  lemma SameFilesGrow(a: seq<DirFile>, b: seq<DirFile>)
    requires forall date :: FileFor(b, date) == FileFor(a, date)
    ensures FolderGrows(a, b)
  {
    FilesHaveDates(a);
  }

  /** With one log of a kind a day, whatever the times: writing on a log lets the days grow exactly when it is one of the newest
      day, or does not stand for its day. */
  lemma AppendGrowsExactlyWhen(dir: seq<DirFile>, i: nat, g: DirFile)
    requires OneLogEach(dir) && i < |dir| && g.name == dir[i].name && dir[i].content < g.content
    ensures OneLogEach(dir[i := g])
    ensures FolderGrows(dir, dir[i := g]) <==> !Stands(dir, i) || NewestDay(dir, DayOf(g.name))
  {
    var b, d := dir[i := g], DayOf(g.name);
    AppendedListing(dir, i, g, true, d);
    forall date ensures FileFor(b, date) ==
      if Stands(dir, i) && date == d then Some(ToDay(g, IsLog(g, true))) else FileFor(dir, date)
    {
      AppendedFile(dir, i, g, date);
    }
    AppendedFile(dir, i, g, d);
    if Stands(dir, i) {
      OneDayGrowsExactlyWhen(dir, b, d, ToDay(g, IsLog(g, true)));
    } else {
      SameFilesGrow(dir, b);
    }
  }

  lemma FilesHaveDates(dir: seq<DirFile>)
    ensures forall date | FileFor(dir, date).Some? :: FileFor(dir, date).value.date == date
  {
    forall date | FileFor(dir, date).Some? ensures FileFor(dir, date).value.date == date {
      LastFileIs(Listing(dir, true), true, date);
      LastFileIs(Listing(dir, false), false, date);
    }
  }

  function Added(dir: seq<DirFile>, k: nat, f: DirFile): seq<DirFile>
    requires k <= |dir|
  {
    dir[..k] + [f] + dir[k..]
  }

  /** Where the files of the old folder are in the new one. */
  function Moved(k: nat, j: nat): nat {
    if j < k then j else j + 1
  }

  lemma AddedAt(dir: seq<DirFile>, k: nat, f: DirFile, j: nat)
    requires k <= |dir| && j < |dir|
    ensures Added(dir, k, f)[k] == f && Added(dir, k, f)[Moved(k, j)] == dir[j] && Moved(k, j) != k
  {
  }

  lemma AddedHas(dir: seq<DirFile>, k: nat, f: DirFile, g: DirFile)
    requires k <= |dir|
    ensures g in Added(dir, k, f) <==> g in dir || g == f
  {
    assert dir == dir[..k] + dir[k..];
  }

  /** The folder before had one log each too, and none of the new file's kind and day. */
  lemma AddedIsAlone(dir: seq<DirFile>, k: nat, f: DirFile)
    requires k <= |dir| && OneLogEach(Added(dir, k, f))
    ensures OneLogEach(dir)
    ensures forall json, g | g in dir && IsLog(g, json) && IsLog(f, json) :: DayOf(g.name) != DayOf(f.name)
  {
    var b := Added(dir, k, f);
    forall i, j, kind | 0 <= i < j < |dir| && IsLog(dir[i], kind) && IsLog(dir[j], kind)
      ensures DayOf(dir[i].name) != DayOf(dir[j].name)
    {
      AddedAt(dir, k, f, i);
      AddedAt(dir, k, f, j);
      assert IsLog(b[Moved(k, i)], kind) && IsLog(b[Moved(k, j)], kind);
    }
    forall json, g | g in dir && IsLog(g, json) && IsLog(f, json) ensures DayOf(g.name) != DayOf(f.name) {
      var j :| 0 <= j < |dir| && dir[j] == g;
      AddedAt(dir, k, f, j);
      assert IsLog(b[Moved(k, j)], json) && IsLog(b[k], json);
    }
  }

  lemma AddedListing(dir: seq<DirFile>, k: nat, f: DirFile, json: bool, date: string)
    requires k <= |dir| && OneLogEach(Added(dir, k, f))
    ensures LastOfDay(Listing(Added(dir, k, f), json), json, date) ==
      if IsLog(f, json) && DayOf(f.name) == date then Some(ToDay(f, json)) else LastOfDay(Listing(dir, json), json, date)
    ensures IsLog(f, json) && DayOf(f.name) == date ==> LastOfDay(Listing(dir, json), json, date) == None
  {
    var b := Added(dir, k, f);
    AddedIsAlone(dir, k, f);
    if IsLog(f, json) && DayOf(f.name) == date {
      AddedHas(dir, k, f, f);
      TheLogStands(b, json, f);
      NoLogStands(dir, json, date);
    } else {
      forall g | IsLog(g, json) && DayOf(g.name) == date ensures g in dir <==> g in b {
        AddedHas(dir, k, f, g);
      }
      SameStands(b, dir, json, date);
    }
  }

  /** A new file changes nothing: it is no log, or a human one beside a JSON twin. */
  predicate Unnoticed(dir: seq<DirFile>, f: DirFile) {
    var before := FileFor(dir, DayOf(f.name));
    !IsLog(f, true) && (!IsLog(f, false) || (before.Some? && before.value.json))
  }

  /** What a new file does to the files that stand for the days. */
  lemma AddedFile(dir: seq<DirFile>, k: nat, f: DirFile, date: string)
    requires k <= |dir| && OneLogEach(Added(dir, k, f))
    ensures FileFor(Added(dir, k, f), date) ==
      if date == DayOf(f.name) && !Unnoticed(dir, f) then Some(ToDay(f, IsLog(f, true))) else FileFor(dir, date)
  {
    AddedListing(dir, k, f, true, date);
    AddedListing(dir, k, f, false, date);
    LastFileIs(Listing(dir, true), true, date);
    LastFileIs(Listing(dir, false), false, date);
  }

  /** A file that is noticed is the first log of its day, or a JSON twin of a human one. */
  lemma NoticedIsFirstOrTwin(dir: seq<DirFile>, k: nat, f: DirFile)
    requires k <= |dir| && OneLogEach(Added(dir, k, f)) && !Unnoticed(dir, f)
    ensures var before := FileFor(dir, DayOf(f.name));
      before.Some? ==> IsLog(f, true) && !before.value.json
  {
    var d := DayOf(f.name);
    AddedListing(dir, k, f, true, d);
    AddedListing(dir, k, f, false, d);
    LastFileIs(Listing(dir, true), true, d);
    LastFileIs(Listing(dir, false), false, d);
  }

  /** A new file lets the days grow exactly when it changes nothing or is the first log of a day newer than all others: not
      when a JSON twin appears for a day that had a human log. */
  lemma AddGrowsExactlyWhen(dir: seq<DirFile>, k: nat, f: DirFile)
    requires k <= |dir| && OneLogEach(Added(dir, k, f))
    ensures OneLogEach(dir)
    ensures FolderGrows(dir, Added(dir, k, f)) <==>
      Unnoticed(dir, f) || (FileFor(dir, DayOf(f.name)).None? && NewestDay(dir, DayOf(f.name)))
  {
    var b, d := Added(dir, k, f), DayOf(f.name);
    AddedIsAlone(dir, k, f);
    forall date
      ensures FileFor(b, date) == if date == d && !Unnoticed(dir, f) then Some(ToDay(f, IsLog(f, true))) else FileFor(dir, date)
    {
      AddedFile(dir, k, f, date);
    }
    if Unnoticed(dir, f) {
      SameFilesGrow(dir, b);
    } else {
      NoticedIsFirstOrTwin(dir, k, f);
      OneDayGrowsExactlyWhen(dir, b, d, ToDay(f, IsLog(f, true)));
    }
  }

  /** A JSON log that appears for a day with a human log ends growth, however many logs there are. */
  lemma TwinEndsGrowth(dir: seq<DirFile>, k: nat, f: DirFile)
    requires k <= |dir| && IsLog(f, true)
    requires FileFor(dir, DayOf(f.name)).Some? && !FileFor(dir, DayOf(f.name)).value.json
    ensures !Grows(Days(dir), Days(Added(dir, k, f)))
  {
    var b, d := Added(dir, k, f), DayOf(f.name);
    assert b[k] == f;
    ListingHas(b, true, f);
    LastFileIs(Listing(b, true), true, d);
    DaysGrowExactlyWhen(dir, b);
  }

  // ---------- logging ----------

  datatype Change = Append(i: nat, log: DirFile) | Create(k: nat, log: DirFile)

  function Changed(dir: seq<DirFile>, c: Change): seq<DirFile> {
    match c
    case Append(i, log) => if i < |dir| then dir[i := log] else dir
    case Create(k, log) => if k <= |dir| then Added(dir, k, log) else dir
  }

  /** What logging does: it writes on a log of the newest day, or on one that does not stand for its day, or creates the first
      log of a newer day, or one beside its JSON twin. Times are arbitrary. */
  ghost predicate IsLogging(dir: seq<DirFile>, c: Change) {
    match c
    case Append(i, log) =>
      i < |dir| && log.name == dir[i].name && dir[i].content < log.content
      && (!Stands(dir, i) || NewestDay(dir, DayOf(log.name)))
    case Create(k, log) =>
      k <= |dir| && OneLogEach(Added(dir, k, log))
      && (Unnoticed(dir, log) || (FileFor(dir, DayOf(log.name)).None? && NewestDay(dir, DayOf(log.name))))
  }

  function ChangedAll(dir: seq<DirFile>, cs: seq<Change>): seq<DirFile>
    decreases |cs|
  {
    if cs == [] then dir else ChangedAll(Changed(dir, cs[0]), cs[1..])
  }

  ghost predicate AllLogging(dir: seq<DirFile>, cs: seq<Change>)
    decreases |cs|
  {
    cs == [] || (IsLogging(dir, cs[0]) && AllLogging(Changed(dir, cs[0]), cs[1..]))
  }

  /** Any amount of logging lets the days grow. */
  lemma {:induction false} LoggingGrows(dir: seq<DirFile>, cs: seq<Change>)
    requires OneLogEach(dir) && AllLogging(dir, cs)
    ensures OneLogEach(ChangedAll(dir, cs)) && FolderGrows(dir, ChangedAll(dir, cs))
    ensures Grows(Days(dir), Days(ChangedAll(dir, cs)))
    decreases |cs|
  {
    if cs == [] {
      FilesHaveDates(dir);
    } else {
      var next := Changed(dir, cs[0]);
      match cs[0] {
        case Append(i, log) => AppendGrowsExactlyWhen(dir, i, log);
        case Create(k, log) => AddGrowsExactlyWhen(dir, k, log);
      }
      LoggingGrows(next, cs[1..]);
      GrowsTwice(dir, next, ChangedAll(dir, cs));
    }
    FilesGrowDays(dir, ChangedAll(dir, cs));
  }

  // ---------- an example ----------

  const EARLIER := "2026-10-23"
  const LATER := "2026-10-24"

  lemma LaterIsNewer()
    ensures Less(EARLIER, LATER) && '.' !in EARLIER && '.' !in LATER
  {
    assert EARLIER[..9] == LATER[..9];
    assert LessAt(EARLIER, LATER, 9);
    LessExactlyWhen(EARLIER, LATER);
  }

  lemma NoOtherDay(dir: seq<DirFile>, date: string)
    requires forall f | f in dir :: DayOf(f.name) != date
    ensures FileFor(dir, date) == None
  {
    NoLogStands(dir, true, date);
    NoLogStands(dir, false, date);
  }

  lemma ItsDay(dir: seq<DirFile>, f: DirFile)
    requires f in dir && IsLog(f, false)
    ensures FileFor(dir, DayOf(f.name)).Some?
  {
    ListingHas(dir, false, f);
    LastFileIs(Listing(dir, false), false, DayOf(f.name));
  }

  /** The first of the days is the newest one. */
  lemma NewestComesFirst(dir: seq<DirFile>, b: DirFile)
    requires b in dir && IsLog(b, false)
    requires forall f | f in dir :: DayOf(f.name) == DayOf(b.name) || Less(DayOf(f.name), DayOf(b.name))
    ensures |Days(dir)| > 0 && Days(dir)[0].date == DayOf(b.name)
  {
    var v, date := Days(dir), DayOf(b.name);
    DaysAre(dir);
    ItsDay(dir, b);
    assert DayAt(v, date) == FileFor(dir, date);
    DayAtIn(v, date);
    var i :| 0 <= i < |v| && v[i] == DayAt(v, date).value;
    var first := v[0].date;
    DayAtFirst(v, 0);
    assert DayAt(v, first) == FileFor(dir, first);
    if f :| f in dir && DayOf(f.name) == first {
      if first != date {
        LessIsStrict(first, date);
      }
    } else {
      NoOtherDay(dir, first);
    }
  }

  lemma LaterOfTwo(a: DirFile, b: DirFile, earlier: string, later: string)
    requires '.' !in earlier && '.' !in later && Less(earlier, later)
    requires a.name == "ufop." + earlier + ".log" && b.name == "ufop." + later + ".log"
    ensures |Days([a, b])| > 0 && Days([a, b])[0].date == later
    ensures |Days([b, a])| > 0 && Days([b, a])[0].date == later
  {
    DailyLog(earlier, a);
    DailyLog(later, b);
    NewestComesFirst([a, b], b);
    NewestComesFirst([b, a], b);
  }

  /** Of two days' logs, in whatever order the folder lists them and whatever their times, the later day's comes first. */
  lemma NewestDayFirstExample(a: DirFile, b: DirFile)
    requires a.name == "ufop." + "2026-10-23" + ".log" && b.name == "ufop." + "2026-10-24" + ".log"
    ensures |Days([a, b])| > 0 && Days([a, b])[0].date == "2026-10-24"
    ensures |Days([b, a])| > 0 && Days([b, a])[0].date == "2026-10-24"
  {
    LaterIsNewer();
    LaterOfTwo(a, b, EARLIER, LATER);
  }
}
