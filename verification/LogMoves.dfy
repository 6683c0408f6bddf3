/** Days with several logs of one kind: which of them stands changes when another is written on. */
module LogMoves {
  import opened Wrappers
  import opened Sequences
  import opened Ordering
  import opened LogRecords
  import opened LogDirectory
  import opened Paging
  import opened LogGrowth

  /** The only log of its kind and day. */
  ghost predicate OnlyLog(dir: seq<DirFile>, i: nat, json: bool)
    requires i < |dir|
  {
    forall j | 0 <= j < |dir| && j != i && IsLog(dir[j], json) :: DayOf(dir[j].name) != DayOf(dir[i].name)
  }

  /** Written on last of its kind. */
  ghost predicate BecomesNewest(dir: seq<DirFile>, i: nat, g: DirFile, json: bool)
    requires i < |dir|
  {
    g.name == dir[i].name && IsLog(g, json) && forall j | 0 <= j < |dir| && j != i && IsLog(dir[j], json) :: dir[j].modified < g.modified
  }

  lemma {:induction false} NoneNamed(v: seq<DirFile>, name: string)
    requires forall f | f in v :: f.name != name
    ensures After(v, {name}) == v
  {
    if v != [] {
      NoneNamed(v[1..], name);
    }
  }

  lemma AfterOne(v: seq<DirFile>, i: nat)
    requires i < |v|
    ensures After(v, {v[i].name}) == After(v[..i], {v[i].name}) + After(v[i + 1..], {v[i].name})
  {
    var name := v[i].name;
    assert v == v[..i] + ([v[i]] + v[i + 1..]);
    FilterConcat(v[..i], [v[i]] + v[i + 1..], FileStays({name}));
    assert ([v[i]] + v[i + 1..])[1..] == v[i + 1..];
  }

  /** Leaving the file out, both folders list alike. */
  lemma OthersListAlike(dir: seq<DirFile>, i: nat, g: DirFile, json: bool)
    requires i < |dir| && g.name == dir[i].name
    ensures After(Listing(dir[i := g], json), {g.name}) == After(Listing(dir, json), {g.name})
  {
    var b := dir[i := g];
    AfterOne(dir, i);
    AfterOne(b, i);
    assert b[..i] == dir[..i] && b[i + 1..] == dir[i + 1..];
    KindFilter(dir, json, {g.name});
    KindFilter(b, json, {g.name});
    SortFilter(OfKind(dir, json), ByTime(), FileStays({g.name}));
    SortFilter(OfKind(b, json), ByTime(), FileStays({g.name}));
  }

  lemma OthersAreOlder(dir: seq<DirFile>, i: nat, g: DirFile, json: bool, f: DirFile)
    requires i < |dir| && BecomesNewest(dir, i, g, json) && f in dir[i := g] && IsLog(f, json)
    ensures f == g || f.modified < g.modified
  {
    var j :| 0 <= j < |dir| && dir[i := g][j] == f;
    if j != i {
      assert dir[j] == f;
    }
  }

  lemma NewestIsFirst(list: seq<DirFile>, g: DirFile)
    requires Descending(list, ByTime()) && g in list && forall f | f in list :: f == g || f.modified < g.modified
    ensures list[0] == g
  {
    var k :| 0 <= k < |list| && list[k] == g;
    if k > 0 {
      assert ByTime()(list[0]) >= ByTime()(list[k]);
    }
    assert list[0] in list;
  }

  /** The file written on last comes first in its listing, the others follow. */
  lemma NewestComesFirst(dir: seq<DirFile>, i: nat, g: DirFile, json: bool)
    requires DistinctBy(dir, FileName()) && i < |dir| && BecomesNewest(dir, i, g, json)
    ensures DistinctBy(dir[i := g], FileName())
    ensures Listing(dir[i := g], json) == [g] + After(Listing(dir, json), {g.name})
  {
    var b := dir[i := g];
    assert forall j | 0 <= j < |dir| :: FileName()(b[j]) == FileName()(dir[j]);
    var list := Listing(b, json);
    ListingMembers(b, json);
    SortDescends(OfKind(b, json), ByTime());
    assert b[i] == g;
    ListingHas(b, json, g);
    forall f | f in list ensures f == g || f.modified < g.modified {
      ListingHas(b, json, f);
      OthersAreOlder(dir, i, g, json, f);
    }
    NewestIsFirst(list, g);
    var rest := list[1..];
    forall f | f in rest ensures f.name != g.name {
      var j :| 0 <= j < |rest| && rest[j] == f;
      assert FileName()(list[0]) != FileName()(list[j + 1]);
    }
    NoneNamed(rest, g.name);
    assert list == [g] + rest;
    OthersListAlike(dir, i, g, json);
  }

  lemma {:induction false} LastOfFirst(g: DirFile, w: seq<DirFile>, date: string)
    ensures LastFile([g] + w, date) ==
      if LastFile(w, date).Some? then LastFile(w, date) else if DayOf(g.name) == date then Some(g) else None
    decreases |w|
  {
    var all := [g] + w;
    if w == [] {
      assert all == [g] && [g][..0] == [];
      assert LastFile([], date) == None;
    } else {
      assert all[..|all| - 1] == [g] + w[..|w| - 1];
      LastOfFirst(g, w[..|w| - 1], date);
    }
  }

  /** Leaving out another file does not change which one is last. */
  lemma {:induction false} LastWithout(v: seq<DirFile>, date: string, name: string)
    requires LastFile(v, date).Some? && LastFile(v, date).value.name != name
    ensures LastFile(After(v, {name}), date) == LastFile(v, date)
  {
    var n := |v| - 1;
    var front, last := v[..n], v[n];
    assert v == front + [last];
    FilterConcat(front, [last], FileStays({name}));
    assert [last][1..] == [];
    var r := After(front, {name});
    if last.name != name {
      assert After(v, {name}) == r + [last];
      assert (r + [last])[..|r|] == r;
    } else {
      assert After(v, {name}) == r + [];
      assert r + [] == r;
    }
    if DayOf(last.name) != date {
      LastWithout(front, date, name);
    }
  }

  lemma {:induction false} AfterHas(v: seq<DirFile>, name: string, f: DirFile)
    ensures f in After(v, {name}) <==> f in v && f.name != name
  {
    if v != [] {
      AfterHas(v[1..], name, f);
      assert v == [v[0]] + v[1..];
    }
  }

  /** The other logs of the day are those the listing has without the file. */
  lemma OthersExactlyWhen(dir: seq<DirFile>, i: nat, json: bool)
    requires DistinctBy(dir, FileName()) && i < |dir|
    ensures LastFile(After(Listing(dir, json), {dir[i].name}), DayOf(dir[i].name)).None? <==> OnlyLog(dir, i, json)
  {
    var name, d := dir[i].name, DayOf(dir[i].name);
    var w := After(Listing(dir, json), {name});
    var last := LastFile(w, d);
    LastFileIs(w, json, d);
    if last.Some? {
      AfterHas(Listing(dir, json), name, last.value);
      ListingHas(dir, json, last.value);
      var j :| 0 <= j < |dir| && dir[j] == last.value;
      assert j != i;
    } else {
      forall j | 0 <= j < |dir| && j != i && IsLog(dir[j], json) ensures DayOf(dir[j].name) != d {
        assert FileName()(dir[if i < j then i else j]) != FileName()(dir[if i < j then j else i]);
        AfterHas(Listing(dir, json), name, dir[j]);
        ListingHas(dir, json, dir[j]);
      }
    }
  }

  /** Of several logs of one kind and day the one written on longest ago stands. So when one is written on, and is the newest
      then, the same file goes on standing exactly when it was not this one, or when this one is the only such log. */
  lemma SameFileStandsExactlyWhen(dir: seq<DirFile>, i: nat, g: DirFile, json: bool)
    requires DistinctBy(dir, FileName()) && i < |dir| && BecomesNewest(dir, i, g, json)
    ensures var d := DayOf(g.name);
      var before, after := LastFile(Listing(dir, json), d), LastFile(Listing(dir[i := g], json), d);
      && before.Some? && after.Some?
      && (after.value.name == before.value.name <==> before.value != dir[i] || OnlyLog(dir, i, json))
      && (before.value != dir[i] ==> after == before)
  {
    var d, name := DayOf(g.name), g.name;
    var list := Listing(dir, json);
    var w := After(list, {name});
    var before := LastFile(list, d);
    NewestComesFirst(dir, i, g, json);
    LastOfFirst(g, w, d);
    LastFileIs(list, json, d);
    ListingHas(dir, json, dir[i]);
    OthersExactlyWhen(dir, i, json);
    LastFileIs(w, json, d);
    if LastFile(w, d).Some? {
      AfterHas(list, name, LastFile(w, d).value);
    }
    ListingHas(dir, json, before.value);
    var j :| 0 <= j < |dir| && dir[j] == before.value;
    if j != i {
      assert FileName()(dir[if i < j then i else j]) != FileName()(dir[if i < j then j else i]);
      LastWithout(list, d, name);
    }
  }

  // ---------- an example ----------

  const ONE := DirFile("ufop.d.log", [65], 1)
  const TWO := DirFile("ufop.d.log.1", [66], 2)
  const ONE_LATER := DirFile("ufop.d.log", [65, 65], 3)

  lemma KindsOfOne(f: DirFile)
    requires f.name == "ufop.d.log"
    ensures IsLog(f, false) && !IsLog(f, true) && DayOf(f.name) == "d"
  {
    var s := f.name;
    ContainsBehind("ufop.d", ".log", HUMAN_MARK);
    assert s == "ufop.d" + ".log";
    assert s[|s| - |JSON_MARK|..][1] == 'd';
    assert s[|FILE_PREFIX| + 1..] == "d.log" && "d.log"[1..] == ".log";
    assert UpToDot(".log") == "" && UpToDot("d.log") == "d";
  }

  lemma DayOfTwo()
    ensures DayOf(TWO.name) == "d"
  {
    var s := TWO.name;
    assert s[|FILE_PREFIX| + 1..] == "d.log.1" && "d.log.1"[1..] == ".log.1";
    assert UpToDot(".log.1") == "";
    assert UpToDot("d.log.1") == "d";
  }

  lemma KindsOfTwo()
    ensures IsLog(TWO, false) && !IsLog(TWO, true)
  {
    var s := TWO.name;
    ContainsBehind("ufop.d", ".log.1", HUMAN_MARK);
    assert s == "ufop.d" + ".log.1";
    assert s[|s| - |JSON_MARK|..][1] == 'l';
  }

  lemma OlderStands(a: DirFile, b: DirFile)
    requires IsLog(a, false) && IsLog(b, false) && !IsLog(a, true) && !IsLog(b, true)
    requires DayOf(a.name) == DayOf(b.name) && a.modified < b.modified
    ensures FileFor([a, b], DayOf(a.name)) == Some(ToDay(a, false)) == FileFor([b, a], DayOf(a.name))
  {
    KindOfTwo(a, b, false);
    KindOfTwo(b, a, false);
    KindOfNone(a, b, true);
    KindOfNone(b, a, true);
    SortTwo(a, b);
    assert Listing([a, b], false) == [b, a] && Listing([b, a], false) == [b, a];
    assert Listing([a, b], true) == [] && Listing([b, a], true) == [];
  }

  /** A day with two human logs: after an append to the one that stood for it, the other one does, and a cursor's offset
      points into another file. */
  lemma AppendMovesExample()
    ensures FileFor([ONE, TWO], "d") == Some(DayFile("d", [65], false))
    ensures FileFor([ONE_LATER, TWO], "d") == Some(DayFile("d", [66], false))
    ensures !Grows(Days([ONE, TWO]), Days([ONE_LATER, TWO]))
  {
    KindsOfOne(ONE);
    KindsOfOne(ONE_LATER);
    KindsOfTwo();
    DayOfTwo();
    OlderStands(ONE, TWO);
    OlderStands(TWO, ONE_LATER);
    var before, after := FileFor([ONE, TWO], "d"), FileFor([ONE_LATER, TWO], "d");
    assert before.value.content[0] == 65 && after.value.content[0] == 66;
    assert !FileGrows(before.value, after);
    DaysGrowExactlyWhen([ONE, TWO], [ONE_LATER, TWO]);
  }
}
