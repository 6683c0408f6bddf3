/** The log folder: which files are logs, and the one file that stands for each day. */
module LogDirectory {
  import opened Wrappers
  import opened Sequences
  import opened Ordering
  import opened Bytes
  import opened LogRecords

  /** A regular file in the folder. */
  datatype DirFile = DirFile(name: string, content: seq<byte>, modified: int)

  const FILE_PREFIX := "ufop"
  const HUMAN_MARK := ".log"
  const JSON_MARK := ".jsonl"

  predicate IsLog(f: DirFile, json: bool) {
    FILE_PREFIX <= f.name && if json then EndsWith(f.name, JSON_MARK) else Contains(f.name, HUMAN_MARK)
  }

  function OfKind(dir: seq<DirFile>, json: bool): seq<DirFile> {
    if dir == [] then [] else if IsLog(dir[0], json) then [dir[0]] + OfKind(dir[1..], json) else OfKind(dir[1..], json)
  }

  function ByTime(): DirFile -> int {
    (f: DirFile) => f.modified
  }

  /** The logs of one kind, newest first. */
  function Listing(dir: seq<DirFile>, json: bool): seq<DirFile> {
    SortDescending(OfKind(dir, json), ByTime())
  }

  function UpToDot(s: string): string {
    if s == [] || s[0] == '.' then [] else [s[0]] + UpToDot(s[1..])
  }

  /** The day a file name stands for. */
  function DayOf(name: string): string {
    UpToDot(if FILE_PREFIX + "." <= name then name[|FILE_PREFIX| + 1..] else name)
  }

  function ToDay(f: DirFile, json: bool): DayFile {
    DayFile(DayOf(f.name), f.content, json)
  }

  /** Newest day first, one file a day. */
  ghost predicate NewestFirst(v: seq<DayFile>) {
    forall i, j | 0 <= i < j < |v| :: Less(v[j].date, v[i].date)
  }

  function DayAt(v: seq<DayFile>, date: string): Option<DayFile> {
    if v == [] then None else if v[0].date == date then Some(v[0]) else DayAt(v[1..], date)
  }

  /** Put a day in its place, over the file that stood for it so far. */
  function PutDay(v: seq<DayFile>, d: DayFile): seq<DayFile> {
    if v == [] then [d]
    else if v[0].date == d.date then [d] + v[1..]
    else if Less(v[0].date, d.date) then [d] + v
    else [v[0]] + PutDay(v[1..], d)
  }

  function PutAll(v: seq<DayFile>, files: seq<DirFile>, json: bool): seq<DayFile> {
    if files == [] then v else PutDay(PutAll(v, files[..|files| - 1], json), ToDay(files[|files| - 1], json))
  }

  /** The days that have a log, newest first. */
  function Days(dir: seq<DirFile>): seq<DayFile> {
    PutAll(PutAll([], Listing(dir, false), false), Listing(dir, true), true)
  }

  /** The last file of the listing for a day. */
  function LastOfDay(files: seq<DirFile>, json: bool, date: string): Option<DayFile> {
    if files == [] then None
    else if DayOf(files[|files| - 1].name) == date then Some(ToDay(files[|files| - 1], json))
    else LastOfDay(files[..|files| - 1], json, date)
  }

  function Or<T>(a: Option<T>, b: Option<T>): Option<T> {
    if a.Some? then a else b
  }

  /** Which file stands for a day: the JSON twin if there is one, else the human log. */
  function FileFor(dir: seq<DirFile>, date: string): Option<DayFile> {
    Or(LastOfDay(Listing(dir, true), true, date), LastOfDay(Listing(dir, false), false, date))
  }

  lemma {:induction false} PutDayKeeps(v: seq<DayFile>, d: DayFile)
    requires NewestFirst(v)
    ensures NewestFirst(PutDay(v, d))
    ensures forall e | e in PutDay(v, d) :: e == d || e in v
    ensures forall date :: DayAt(PutDay(v, d), date) == if date == d.date then Some(d) else DayAt(v, date)
  {
    if v != [] {
      LessIsTotal(v[0].date, d.date);
      if v[0].date != d.date {
        if Less(v[0].date, d.date) {
          forall e | e in v ensures Less(e.date, d.date) {
            if e != v[0] { LessIsTransitive(e.date, v[0].date, d.date); }
          }
          NewestHasNo(v, d.date);
        } else {
          PutDayKeeps(v[1..], d);
          var r := PutDay(v[1..], d);
          forall e | e in r ensures Less(e.date, v[0].date) {
            if e != d {
              var i :| 0 <= i < |v[1..]| && v[1..][i] == e;
              assert v[i + 1] == e;
            }
          }
        }
      } else {
        NewestHasNo(v[1..], d.date);
      }
    }
  }

  /** A date above all others is not there. */
  lemma {:induction false} NewestHasNo(v: seq<DayFile>, date: string)
    requires forall e | e in v :: Less(e.date, date)
    ensures DayAt(v, date) == None
  {
    if v != [] {
      LessIsStrict(v[0].date, date);
      NewestHasNo(v[1..], date);
    }
  }

  lemma {:induction false} PutAllKeeps(v: seq<DayFile>, files: seq<DirFile>, json: bool)
    requires NewestFirst(v)
    ensures NewestFirst(PutAll(v, files, json))
    ensures forall date :: DayAt(PutAll(v, files, json), date) == Or(LastOfDay(files, json, date), DayAt(v, date))
  {
    if files != [] {
      var n := |files| - 1;
      PutAllKeeps(v, files[..n], json);
      PutDayKeeps(PutAll(v, files[..n], json), ToDay(files[n], json));
    }
  }

  /** One file a day, newest first; the JSON twin wins over the human log. */
  lemma DaysAre(dir: seq<DirFile>)
    ensures NewestFirst(Days(dir))
    ensures forall date :: DayAt(Days(dir), date) == FileFor(dir, date)
  {
    PutAllKeeps([], Listing(dir, false), false);
    PutAllKeeps(PutAll([], Listing(dir, false), false), Listing(dir, true), true);
  }

  // ---------- folders and their listings ----------

  function FileStays(gone: set<string>): DirFile -> bool {
    (f: DirFile) => f.name !in gone
  }

  /** The folder after the files are removed. */
  function After(dir: seq<DirFile>, gone: set<string>): seq<DirFile> {
    Filter(dir, FileStays(gone))
  }

  function FileName(): DirFile -> string {
    (f: DirFile) => f.name
  }

  lemma {:induction false} KindFilter(dir: seq<DirFile>, json: bool, gone: set<string>)
    ensures OfKind(After(dir, gone), json) == After(OfKind(dir, json), gone)
  {
    if dir != [] {
      KindFilter(dir[1..], json, gone);
      var a, o := After(dir[1..], gone), OfKind(dir[1..], json);
      assert ([dir[0]] + a)[1..] == a && ([dir[0]] + o)[1..] == o;
    }
  }

  lemma {:induction false} KindKeeps(dir: seq<DirFile>, json: bool, p: DirFile -> bool)
    requires forall i | 0 <= i < |dir| :: p(dir[i])
    ensures forall i | 0 <= i < |OfKind(dir, json)| :: IsLog(OfKind(dir, json)[i], json) && p(OfKind(dir, json)[i])
  {
    if dir != [] {
      KindKeeps(dir[1..], json, p);
    }
  }

  lemma {:induction false} KindDistinct(dir: seq<DirFile>, json: bool)
    requires DistinctBy(dir, FileName())
    ensures DistinctBy(OfKind(dir, json), FileName())
  {
    if dir != [] {
      var rest := dir[1..];
      forall i | 0 <= i < |rest| ensures rest[i].name != dir[0].name {
        assert FileName()(dir[0]) != FileName()(dir[i + 1]);
      }
      KindDistinct(rest, json);
      KindKeeps(rest, json, (f: DirFile) => f.name != dir[0].name);
    }
  }

  lemma ListingMembers(dir: seq<DirFile>, json: bool)
    requires DistinctBy(dir, FileName())
    ensures DistinctBy(Listing(dir, json), FileName())
    ensures forall i | 0 <= i < |Listing(dir, json)| :: IsLog(Listing(dir, json)[i], json) && Listing(dir, json)[i] in dir
  {
    KindDistinct(dir, json);
    KindKeeps(dir, json, (f: DirFile) => f in dir);
    SortDistinct(OfKind(dir, json), ByTime(), FileName());
    SortKeeps(OfKind(dir, json), ByTime(), (f: DirFile) => IsLog(f, json) && f in dir);
  }

  lemma KindOfNone(a: DirFile, b: DirFile, json: bool)
    requires !IsLog(a, json) && !IsLog(b, json)
    ensures OfKind([a, b], json) == []
  {
    assert [a, b][1..] == [b] && [b][1..] == [];
    assert OfKind([b], json) == [];
  }

  lemma KindOfTwo(a: DirFile, b: DirFile, json: bool)
    requires IsLog(b, json)
    ensures OfKind([a, b], json) == if IsLog(a, json) then [a, b] else [b]
  {
    assert [a, b][1..] == [b] && [b][1..] == [];
    assert OfKind([b], json) == [b];
  }

  lemma KindOfFirst(a: DirFile, b: DirFile, json: bool)
    requires IsLog(a, json) && !IsLog(b, json)
    ensures OfKind([a, b], json) == [a]
  {
    assert [a, b][1..] == [b] && [b][1..] == [];
    assert OfKind([b], json) == [];
  }

  lemma SortTwo(a: DirFile, b: DirFile)
    requires b.modified > a.modified
    ensures SortDescending([a, b], ByTime()) == [b, a] == SortDescending([b, a], ByTime()) && SortDescending([a], ByTime()) == [a]
  {
    assert [a, b][1..] == [b] && [b, a][1..] == [a] && [b][1..] == [] && [a][1..] == [];
    assert SortDescending([a], ByTime()) == [a];
    assert SortDescending([b], ByTime()) == [b];
    assert Insert([], a, ByTime()) == [a];
  }

  // ---------- collecting the days ----------

  /** `by_day` holds exactly the days of `v`. */
  ghost predicate Represents(byDay: map<string, DayFile>, v: seq<DayFile>) {
    forall date :: DayAt(v, date) == if date in byDay then Some(byDay[date]) else None
  }

  lemma {:induction false} DayAtFirst(v: seq<DayFile>, i: nat)
    requires NewestFirst(v) && i < |v|
    ensures DayAt(v, v[i].date) == Some(v[i])
  {
    if i > 0 {
      LessIsStrict(v[i].date, v[0].date);
      DayAtFirst(v[1..], i - 1);
    }
  }

  lemma {:induction false} DayAtIn(v: seq<DayFile>, date: string)
    ensures DayAt(v, date).Some? ==> DayAt(v, date).value in v && DayAt(v, date).value.date == date
  {
    if v != [] && v[0].date != date {
      DayAtIn(v[1..], date);
    }
  }

  /** A list of days is determined by what it holds. */
  lemma {:induction false} SameDays(a: seq<DayFile>, b: seq<DayFile>)
    requires NewestFirst(a) && NewestFirst(b)
    requires forall date :: DayAt(a, date) == DayAt(b, date)
    ensures a == b
  {
    if a == [] {
      if b != [] { DayAtFirst(b, 0); }
    } else {
      DayAtFirst(a, 0);
      DayAtIn(b, a[0].date);
      DayAtFirst(b, 0);
      DayAtIn(a, b[0].date);
      assert a[0] == b[0] by {
        if a[0].date != b[0].date {
          LessIsStrict(a[0].date, b[0].date);
        }
      }
      forall date ensures DayAt(a[1..], date) == DayAt(b[1..], date) {
        assert DayAt(a, date) == DayAt(b, date);
        if date == a[0].date {
          NewestHasNo(a[1..], date);
          NewestHasNo(b[1..], date);
        }
      }
      SameDays(a[1..], b[1..]);
    }
  }

  /** What a list of days holds below one of them. */
  lemma {:induction false} DayAtBelow(v: seq<DayFile>, k: nat, date: string)
    requires NewestFirst(v) && k < |v|
    ensures DayAt(v[k + 1..], date) == if Less(date, v[k].date) then DayAt(v, date) else None
  {
    if k > 0 {
      assert v[1..][k..] == v[k + 1..];
      DayAtBelow(v[1..], k - 1, date);
      if Less(date, v[k].date) {
        LessIsTransitive(date, v[k].date, v[0].date);
        LessIsStrict(date, v[0].date);
      }
    } else {
      DayAtIn(v[1..], date);
      if Less(date, v[0].date) { LessIsStrict(date, v[0].date); }
    }
  }

  /** Insert each file under its day, over the one there. */
  method PutFiles(byDay: map<string, DayFile>, files: seq<DirFile>, json: bool, ghost v: seq<DayFile>) returns (r: map<string, DayFile>)
    requires NewestFirst(v) && Represents(byDay, v)
    ensures NewestFirst(PutAll(v, files, json)) && Represents(r, PutAll(v, files, json))
  {
    r := byDay;
    for i := 0 to |files|
      invariant NewestFirst(PutAll(v, files[..i], json)) && Represents(r, PutAll(v, files[..i], json))
    {
      PutDayKeeps(PutAll(v, files[..i], json), ToDay(files[i], json));
      assert files[..i + 1][..i] == files[..i];
      r := r[DayOf(files[i].name) := ToDay(files[i], json)];
    }
    assert files[..|files|] == files;
  }

  /** The days that have a log, newest first: collected by day, then sorted. */
  method DayFiles(dir: seq<DirFile>) returns (v: seq<DayFile>)
    ensures v == Days(dir)
    ensures NewestFirst(v) && forall date :: DayAt(v, date) == FileFor(dir, date)
  {
    var byDay := PutFiles(map[], Listing(dir, false), false, []);
    byDay := PutFiles(byDay, Listing(dir, true), true, PutAll([], Listing(dir, false), false));
    forall date | date in byDay ensures byDay[date].date == date {
      DayAtIn(Days(dir), date);
    }
    v := SortDays(byDay);
    DaysAre(dir);
    SameDays(v, Days(dir));
  }

  /** The values of the map, newest day first. */
  method SortDays(byDay: map<string, DayFile>) returns (v: seq<DayFile>)
    requires forall date | date in byDay :: byDay[date].date == date
    ensures NewestFirst(v) && Represents(byDay, v)
  {
    v := [];
    var left := byDay;
    while left != map[]
      invariant NewestFirst(v) && left.Keys <= byDay.Keys
      invariant forall date :: DayAt(v, date) == if date in byDay && date !in left then Some(byDay[date]) else None
      decreases |left|
    {
      var date :| date in left;
      PutDayKeeps(v, byDay[date]);
      v := PutDay(v, byDay[date]);
      left := left - {date};
    }
  }

  // ---------- what file names mean ----------

  /** A log's name starts with `ufop`; a human one has `.log` somewhere in it, a JSON one ends with `.jsonl`. */
  lemma IsLogExactlyWhen(f: DirFile)
    ensures IsLog(f, false) <==> "ufop" <= f.name && Occurs(f.name, ".log")
    ensures IsLog(f, true) <==> "ufop" <= f.name && exists front :: f.name == front + ".jsonl"
  {
    ContainsExactlyWhen(f.name, ".log");
    EndsExactlyWhen(f.name, ".jsonl");
  }

  lemma {:induction false} UpToDotIs(s: string)
    ensures var d := UpToDot(s);
      '.' !in d && d <= s && (d == s || s[|d|] == '.')
  {
    if s != [] && s[0] != '.' {
      UpToDotIs(s[1..]);
    }
  }

  /** The day is what stands between `ufop.` and the next dot, or the name up to its first dot. */
  lemma DayOfIs(name: string)
    ensures var stem, d := if "ufop." <= name then name[5..] else name, DayOf(name);
      '.' !in d && d <= stem && (d == stem || stem[|d|] == '.')
  {
    assert FILE_PREFIX + "." == "ufop.";
    UpToDotIs(if "ufop." <= name then name[5..] else name);
  }

  lemma {:induction false} UpToDotBehind(d: string, rest: string)
    requires '.' !in d && (rest == "" || rest[0] == '.')
    ensures UpToDot(d + rest) == d
  {
    if d == "" {
      assert d + rest == rest;
    } else {
      assert (d + rest)[1..] == d[1..] + rest;
      UpToDotBehind(d[1..], rest);
      assert [d[0]] + d[1..] == d;
    }
  }

  lemma DailyDay(d: string, rest: string)
    requires '.' !in d && rest != "" && rest[0] == '.'
    ensures DayOf("ufop." + d + rest) == d
  {
    var s := "ufop." + d + rest;
    assert FILE_PREFIX + "." == "ufop." && s[..5] == "ufop." && s[5..] == d + rest;
    UpToDotBehind(d, rest);
  }

  lemma DailyKind(front: string, f: DirFile)
    requires f.name == front + ".log" && "ufop" <= front
    ensures IsLog(f, false) && !IsLog(f, true)
  {
    ContainsBehind(front, ".log", HUMAN_MARK);
    var s := f.name;
    assert s[|s| - 1] == ".log"[3] == 'g';
    if |JSON_MARK| <= |s| {
      assert s[|s| - |JSON_MARK|..][5] == s[|s| - 1];
    }
  }

  /** A daily human log, as the log writer names it. */
  lemma DailyLog(d: string, f: DirFile)
    requires '.' !in d && f.name == "ufop." + d + ".log"
    ensures IsLog(f, false) && !IsLog(f, true) && DayOf(f.name) == d
  {
    DailyDay(d, ".log");
    DailyKind("ufop." + d, f);
  }

  /** What stands for a day is the file itself. */
  lemma ToDayIs(f: DirFile, json: bool)
    ensures ToDay(f, json).content == f.content && ToDay(f, json).json == json && ToDay(f, json).date == DayOf(f.name)
  {
  }
}
