/** Pruning the log folder by age and total size. */
module Retention {
  import opened Sequences
  import opened Ordering
  import opened LogDirectory

  /** A log in the merged list, once for each kind it is listed as. */
  datatype Candidate = Candidate(file: DirFile, human: bool)

  datatype Limits = Limits(now: int, maxAge: nat, maxTotal: nat)

  /** What the loop has kept so far. */
  datatype Kept = Kept(human: bool, json: bool, total: nat)

  const NOTHING := Kept(false, false, 0)

  function Size(c: Candidate): nat {
    |c.file.content|
  }

  predicate TooOld(lim: Limits, c: Candidate) {
    lim.now - c.file.modified > lim.maxAge
  }

  predicate HasKind(k: Kept, human: bool) {
    if human then k.human else k.json
  }

  /** Not the first of its kind, and too old or too large for what is left. */
  predicate Drops(lim: Limits, k: Kept, c: Candidate) {
    HasKind(k, c.human) && (TooOld(lim, c) || k.total + Size(c) > lim.maxTotal)
  }

  /** A dropped file was not the first of its kind, so only kept ones change anything. */
  function Keep(k: Kept, c: Candidate): Kept {
    Kept(k.human || c.human, k.json || !c.human, k.total + Size(c))
  }

  function Mark(files: seq<DirFile>, human: bool): seq<Candidate> {
    if files == [] then [] else [Candidate(files[0], human)] + Mark(files[1..], human)
  }

  function CandidateByTime(): Candidate -> int {
    (c: Candidate) => c.file.modified
  }

  /** Both kinds, newest first. */
  function Candidates(dir: seq<DirFile>): seq<Candidate> {
    SortDescending(Mark(Listing(dir, false), true) + Mark(Listing(dir, true), false), CandidateByTime())
  }

  /** The candidates that stay. */
  function Survivors(lim: Limits, k: Kept, cs: seq<Candidate>): seq<Candidate>
    decreases |cs|
  {
    if cs == [] then []
    else if Drops(lim, k, cs[0]) then Survivors(lim, k, cs[1..])
    else [cs[0]] + Survivors(lim, Keep(k, cs[0]), cs[1..])
  }

  /** The names of the files removed. */
  function Gone(lim: Limits, k: Kept, cs: seq<Candidate>): set<string>
    decreases |cs|
  {
    if cs == [] then {}
    else if Drops(lim, k, cs[0]) then {cs[0].file.name} + Gone(lim, k, cs[1..])
    else Gone(lim, Keep(k, cs[0]), cs[1..])
  }

  /** Remove log files of both kinds; the count is of files that were there to remove. */
  method Prune(dir: seq<DirFile>, lim: Limits) returns (gone: set<string>, removed: nat)
    ensures gone == Gone(lim, NOTHING, Candidates(dir)) && removed == |gone|
  {
    var left := Candidates(dir);
    var keptHuman, keptJson := false, false;
    var total: nat := 0;
    gone, removed := {}, 0;
    while left != []
      invariant removed == |gone|
      invariant gone + Gone(lim, Kept(keptHuman, keptJson, total), left) == Gone(lim, NOTHING, Candidates(dir))
      decreases |left|
    {
      var c := left[0];
      left := left[1..];
      var newestOfKind := if c.human then !keptHuman else !keptJson;
      if c.human {
        keptHuman := true;
      } else {
        keptJson := true;
      }
      if !newestOfKind && (TooOld(lim, c) || total + Size(c) > lim.maxTotal) {
        if c.file.name !in gone {
          removed := removed + 1;
          gone := gone + {c.file.name};
        }
        continue;
      }
      total := total + Size(c);
    }
  }

  /** `Retention::apply`: days and megabytes. */
  method Apply(dir: seq<DirFile>, now: int, maxAgeDays: nat, maxTotalMb: nat) returns (gone: set<string>, removed: nat)
    ensures gone == Gone(Limits(now, maxAgeDays * 86_400, maxTotalMb * 1024 * 1024), NOTHING, Candidates(dir)) && removed == |gone|
  {
    gone, removed := Prune(dir, Limits(now, maxAgeDays * 86_400, maxTotalMb * 1024 * 1024));
  }

  /** The list the loop goes through: the logs of both kinds, newest first. */
  lemma CandidatesAre(dir: seq<DirFile>)
    ensures Descending(Candidates(dir), CandidateByTime())
    ensures multiset(Candidates(dir)) == multiset(Mark(Listing(dir, false), true)) + multiset(Mark(Listing(dir, true), false))
    ensures var both := Mark(Listing(dir, false), true) + Mark(Listing(dir, true), false);
      forall n :: Filter(Candidates(dir), HasKey(CandidateByTime(), n)) == Filter(both, HasKey(CandidateByTime(), n))
    ensures multiset(Listing(dir, false)) == multiset(OfKind(dir, false)) && multiset(Listing(dir, true)) == multiset(OfKind(dir, true))
  {
    var both := Mark(Listing(dir, false), true) + Mark(Listing(dir, true), false);
    SortDescends(both, CandidateByTime());
    forall n ensures Filter(Candidates(dir), HasKey(CandidateByTime(), n)) == Filter(both, HasKey(CandidateByTime(), n)) {
      SortIsStable(both, CandidateByTime(), n);
    }
    SortIsPermutation(both, CandidateByTime());
    SortIsPermutation(OfKind(dir, false), ByTime());
    SortIsPermutation(OfKind(dir, true), ByTime());
  }

  // ---------- which files always survive ----------

  /** Every listing of the file is the newest of its kind. */
  ghost predicate AlwaysNewest(k: Kept, cs: seq<Candidate>, name: string) {
    forall j | 0 <= j < |cs| && cs[j].file.name == name ::
      !HasKind(k, cs[j].human) && forall i | 0 <= i < j :: cs[i].human != cs[j].human
  }

  lemma {:induction false} NewestIsKept(lim: Limits, k: Kept, cs: seq<Candidate>, name: string)
    requires AlwaysNewest(k, cs, name)
    ensures name !in Gone(lim, k, cs)
    decreases |cs|
  {
    if cs != [] {
      var rest, k' := cs[1..], if Drops(lim, k, cs[0]) then k else Keep(k, cs[0]);
      forall j | 0 <= j < |rest| && rest[j].file.name == name
        ensures !HasKind(k', rest[j].human) && forall i | 0 <= i < j :: rest[i].human != rest[j].human
      {
        assert cs[j + 1] == rest[j] && cs[0].human != cs[j + 1].human;
        forall i | 0 <= i < j ensures rest[i].human != rest[j].human {
          assert cs[i + 1].human != cs[j + 1].human;
        }
      }
      NewestIsKept(lim, k', rest, name);
    }
  }

  /** Long after, with no age allowed, a listing that is not the newest of its kind is dropped. */
  lemma {:induction false} OthersGo(lim: Limits, k: Kept, cs: seq<Candidate>, j: nat)
    requires j < |cs| && TooOld(lim, cs[j])
    requires HasKind(k, cs[j].human) || exists i | 0 <= i < j :: cs[i].human == cs[j].human
    ensures cs[j].file.name in Gone(lim, k, cs)
    decreases j
  {
    if j > 0 {
      var k' := if Drops(lim, k, cs[0]) then k else Keep(k, cs[0]);
      var rest := cs[1..];
      if !HasKind(k', cs[j].human) {
        var i :| 0 <= i < j && cs[i].human == cs[j].human;
        assert i > 0;
        assert rest[i - 1].human == rest[j - 1].human;
      }
      OthersGo(lim, k', rest, j - 1);
    }
  }

  /** A file survives whatever the clock and the limits exactly when each of its listings is the newest of its kind. */
  lemma AlwaysKeptExactlyWhen(dir: seq<DirFile>, name: string)
    ensures (forall lim: Limits :: name !in Gone(lim, NOTHING, Candidates(dir))) <==> AlwaysNewest(NOTHING, Candidates(dir), name)
  {
    var cs := Candidates(dir);
    if AlwaysNewest(NOTHING, cs, name) {
      forall lim: Limits ensures name !in Gone(lim, NOTHING, cs) {
        NewestIsKept(lim, NOTHING, cs, name);
      }
    } else {
      var j :| 0 <= j < |cs| && cs[j].file.name == name && exists i | 0 <= i < j :: cs[i].human == cs[j].human;
      var lim := Limits(cs[j].file.modified + 1, 0, 0);
      OthersGo(lim, NOTHING, cs, j);
    }
  }

  // ---------- what the survivors amount to ----------

  function Total(cs: seq<Candidate>): nat {
    if cs == [] then 0 else Size(cs[0]) + Total(cs[1..])
  }

  /** The survivors without the newest of each kind. */
  function Others(k: Kept, cs: seq<Candidate>): seq<Candidate>
    decreases |cs|
  {
    if cs == [] then []
    else (if HasKind(k, cs[0].human) then [cs[0]] else []) + Others(Keep(k, cs[0]), cs[1..])
  }

  /** All but the newest of each kind are young enough, and together fit into the limit. */
  lemma {:induction false} OthersFit(lim: Limits, k: Kept, cs: seq<Candidate>)
    ensures var others := Others(k, Survivors(lim, k, cs));
      && (forall i | 0 <= i < |others| :: !TooOld(lim, others[i]))
      && (others == [] || k.total + Total(others) <= lim.maxTotal)
    decreases |cs|
  {
    if cs != [] {
      if Drops(lim, k, cs[0]) {
        OthersFit(lim, k, cs[1..]);
      } else {
        var k' := Keep(k, cs[0]);
        OthersFit(lim, k', cs[1..]);
        var s, more := Survivors(lim, k, cs), Others(k', Survivors(lim, k', cs[1..]));
        assert s[0] == cs[0] && s[1..] == Survivors(lim, k', cs[1..]);
        if HasKind(k, cs[0].human) {
          assert Others(k, s) == [cs[0]] + more;
          assert Others(k, s)[1..] == more;
        } else {
          assert Others(k, s) == more;
        }
      }
    }
  }

  /** The newest of each kind. */
  function Firsts(k: Kept, cs: seq<Candidate>): seq<Candidate>
    decreases |cs|
  {
    if cs == [] then []
    else (if HasKind(k, cs[0].human) then [] else [cs[0]]) + Firsts(Keep(k, cs[0]), cs[1..])
  }

  lemma {:induction false} FirstsAndOthers(k: Kept, cs: seq<Candidate>)
    ensures Total(cs) == Total(Firsts(k, cs)) + Total(Others(k, cs))
    ensures |Firsts(k, cs)| <= (if k.human then 0 else 1) + (if k.json then 0 else 1)
    decreases |cs|
  {
    if cs != [] {
      var k' := Keep(k, cs[0]);
      FirstsAndOthers(k', cs[1..]);
      var one, f, o := [cs[0]], Firsts(k', cs[1..]), Others(k', cs[1..]);
      assert (one + f)[1..] == f && (one + o)[1..] == o && [] + f == f && [] + o == o;
    }
  }

  lemma {:induction false} FirstsSurvive(lim: Limits, k: Kept, cs: seq<Candidate>)
    ensures Firsts(k, Survivors(lim, k, cs)) == Firsts(k, cs)
    decreases |cs|
  {
    if cs != [] {
      if Drops(lim, k, cs[0]) {
        assert Keep(k, cs[0]).human == k.human && Keep(k, cs[0]).json == k.json;
        FirstsSurvive(lim, k, cs[1..]);
        SameFirsts(k, Keep(k, cs[0]), cs[1..]);
      } else {
        var k' := Keep(k, cs[0]);
        FirstsSurvive(lim, k', cs[1..]);
        var s := Survivors(lim, k, cs);
        assert s[0] == cs[0] && s[1..] == Survivors(lim, k', cs[1..]);
      }
    }
  }

  lemma {:induction false} SameFirsts(k: Kept, l: Kept, cs: seq<Candidate>)
    requires k.human == l.human && k.json == l.json
    ensures Firsts(k, cs) == Firsts(l, cs)
    decreases |cs|
  {
    if cs != [] {
      SameFirsts(Keep(k, cs[0]), Keep(l, cs[0]), cs[1..]);
    }
  }

  // ---------- pruning again ----------

  function CandidateStays(gone: set<string>): Candidate -> bool {
    (c: Candidate) => c.file.name !in gone
  }

  /** Names are distinct, as in any folder, and no file counts as a log of both kinds. */
  ghost predicate OneKindEach(dir: seq<DirFile>) {
    && DistinctBy(dir, FileName())
    && (forall i | 0 <= i < |dir| :: !(IsLog(dir[i], true) && IsLog(dir[i], false)))
  }

  function CandidateName(): Candidate -> string {
    (c: Candidate) => c.file.name
  }

  function StayingOnes(cs: seq<Candidate>, gone: set<string>): seq<Candidate> {
    Filter(cs, CandidateStays(gone))
  }

  lemma {:induction false} NotGone(lim: Limits, k: Kept, cs: seq<Candidate>, name: string)
    requires forall i | 0 <= i < |cs| :: cs[i].file.name != name
    ensures name !in Gone(lim, k, cs)
    decreases |cs|
  {
    if cs != [] {
      NotGone(lim, if Drops(lim, k, cs[0]) then k else Keep(k, cs[0]), cs[1..], name);
    }
  }

  /** With distinct names, the survivors are those whose names are not gone. */
  lemma {:induction false} SurvivorsStay(lim: Limits, k: Kept, cs: seq<Candidate>, gone: set<string>)
    requires DistinctBy(cs, CandidateName())
    requires forall i | 0 <= i < |cs| :: cs[i].file.name in gone <==> cs[i].file.name in Gone(lim, k, cs)
    ensures StayingOnes(cs, gone) == Survivors(lim, k, cs)
    decreases |cs|
  {
    if cs != [] {
      var rest := cs[1..];
      var drop := Drops(lim, k, cs[0]);
      var k' := if drop then k else Keep(k, cs[0]);
      NotGone(lim, k', rest, cs[0].file.name);
      forall i | 0 <= i < |rest| ensures rest[i].file.name in gone <==> rest[i].file.name in Gone(lim, k', rest) {
        assert cs[i + 1] == rest[i];
      }
      SurvivorsStay(lim, k', rest, gone);
    }
  }

  lemma {:induction false} MarkFilter(files: seq<DirFile>, human: bool, gone: set<string>)
    ensures Mark(After(files, gone), human) == StayingOnes(Mark(files, human), gone)
  {
    if files != [] {
      MarkFilter(files[1..], human, gone);
      var f, m := After(files[1..], gone), Mark(files[1..], human);
      assert ([files[0]] + f)[1..] == f && ([Candidate(files[0], human)] + m)[1..] == m;
    }
  }

  /** The folder after removals lists as the old list without the removed files. */
  lemma CandidatesAfter(dir: seq<DirFile>, gone: set<string>)
    ensures Candidates(After(dir, gone)) == StayingOnes(Candidates(dir), gone)
  {
    KindFilter(dir, false, gone);
    KindFilter(dir, true, gone);
    SortFilter(OfKind(dir, false), ByTime(), FileStays(gone));
    SortFilter(OfKind(dir, true), ByTime(), FileStays(gone));
    var h, j := Listing(dir, false), Listing(dir, true);
    assert Listing(After(dir, gone), false) == After(h, gone);
    assert Listing(After(dir, gone), true) == After(j, gone);
    MarkFilter(h, true, gone);
    MarkFilter(j, false, gone);
    FilterConcat(Mark(h, true), Mark(j, false), CandidateStays(gone));
    SortFilter(Mark(h, true) + Mark(j, false), CandidateByTime(), CandidateStays(gone));
  }

  lemma {:induction false} MarkIs(files: seq<DirFile>, human: bool)
    ensures |Mark(files, human)| == |files|
    ensures forall i | 0 <= i < |files| :: Mark(files, human)[i] == Candidate(files[i], human)
  {
    if files != [] {
      MarkIs(files[1..], human);
    }
  }

  /** No file is listed twice when none counts as a log of both kinds. */
  lemma ListedOnce(dir: seq<DirFile>)
    requires OneKindEach(dir)
    ensures DistinctBy(Candidates(dir), CandidateName())
  {
    var h, j := Listing(dir, false), Listing(dir, true);
    ListingMembers(dir, false);
    ListingMembers(dir, true);
    MarkIs(h, true);
    MarkIs(j, false);
    var both := Mark(h, true) + Mark(j, false);
    forall i, k | 0 <= i < k < |both| ensures CandidateName()(both[i]) != CandidateName()(both[k]) {
      if k < |h| {
        assert FileName()(h[i]) != FileName()(h[k]);
      } else if i >= |h| {
        assert FileName()(j[i - |h|]) != FileName()(j[k - |h|]);
      } else {
        DifferentFiles(dir, h[i], j[k - |h|]);
      }
    }
    SortDistinct(both, CandidateByTime(), CandidateName());
  }

  lemma DifferentFiles(dir: seq<DirFile>, a: DirFile, b: DirFile)
    requires OneKindEach(dir) && a in dir && b in dir && IsLog(a, false) && IsLog(b, true)
    ensures a.name != b.name
  {
    var i :| 0 <= i < |dir| && dir[i] == a;
    var k :| 0 <= k < |dir| && dir[k] == b;
    assert i != k;
    assert FileName()(dir[if i < k then i else k]) != FileName()(dir[if i < k then k else i]);
  }

  /** What a second pruning has kept is no more than what the first had: it drops nothing. */
  lemma {:induction false} AgainDropsNothing(lim: Limits, k: Kept, l: Kept, cs: seq<Candidate>, gone: set<string>)
    requires Gone(lim, k, cs) <= gone
    requires (l.human ==> k.human) && (l.json ==> k.json) && l.total <= k.total
    ensures Gone(lim, l, StayingOnes(cs, gone)) == {}
    decreases |cs|
  {
    if cs != [] {
      var c, rest := cs[0], StayingOnes(cs[1..], gone);
      if c.file.name in gone {
        AgainDropsNothing(lim, if Drops(lim, k, c) then k else Keep(k, c), l, cs[1..], gone);
      } else {
        AgainDropsNothing(lim, Keep(k, c), Keep(l, c), cs[1..], gone);
        assert ([c] + rest)[1..] == rest;
      }
    }
  }

  /** Pruning again at the same clock removes nothing. */
  lemma PruneAgainRemovesNothing(dir: seq<DirFile>, lim: Limits)
    ensures var left := After(dir, Gone(lim, NOTHING, Candidates(dir)));
      Gone(lim, NOTHING, Candidates(left)) == {}
  {
    var gone := Gone(lim, NOTHING, Candidates(dir));
    CandidatesAfter(dir, gone);
    AgainDropsNothing(lim, NOTHING, NOTHING, Candidates(dir), gone);
  }

  lemma {:induction false} NoneGoneAllSurvive(lim: Limits, k: Kept, cs: seq<Candidate>)
    requires Gone(lim, k, cs) == {}
    ensures Survivors(lim, k, cs) == cs
    decreases |cs|
  {
    if cs != [] {
      assert !Drops(lim, k, cs[0]) by {
        assert cs[0].file.name !in Gone(lim, k, cs);
      }
      NoneGoneAllSurvive(lim, Keep(k, cs[0]), cs[1..]);
    }
  }

  /** The logs left by a pruning: the newest of each kind (at most two), and others that are young enough and fit into the
      limit together. */
  lemma PrunedFolder(dir: seq<DirFile>, lim: Limits)
    ensures var left := Candidates(After(dir, Gone(lim, NOTHING, Candidates(dir))));
      var firsts, others := Firsts(NOTHING, left), Others(NOTHING, left);
      && |firsts| <= 2
      && (forall i | 0 <= i < |others| :: lim.now - others[i].file.modified <= lim.maxAge) && Total(others) <= lim.maxTotal
      && Total(left) == Total(firsts) + Total(others)
  {
    var left := Candidates(After(dir, Gone(lim, NOTHING, Candidates(dir))));
    PruneAgainRemovesNothing(dir, lim);
    NoneGoneAllSurvive(lim, NOTHING, left);
    OthersFit(lim, NOTHING, left);
    FirstsAndOthers(NOTHING, left);
  }

  lemma {:induction false} DroppedGone(lim: Limits, k: Kept, cs: seq<Candidate>, gone: set<string>)
    requires Gone(lim, k, cs) <= gone
    ensures StayingOnes(cs, gone) == StayingOnes(Survivors(lim, k, cs), gone)
    decreases |cs|
  {
    if cs != [] {
      if Drops(lim, k, cs[0]) {
        DroppedGone(lim, k, cs[1..], gone);
      } else {
        var s := Survivors(lim, Keep(k, cs[0]), cs[1..]);
        DroppedGone(lim, Keep(k, cs[0]), cs[1..], gone);
        assert ([cs[0]] + s)[1..] == s;
      }
    }
  }

  lemma {:induction false} AllStayExactlyWhen(cs: seq<Candidate>, gone: set<string>)
    ensures |StayingOnes(cs, gone)| <= |cs|
    ensures StayingOnes(cs, gone) == cs <==> forall i | 0 <= i < |cs| :: cs[i].file.name !in gone
  {
    if cs != [] {
      AllStayExactlyWhen(cs[1..], gone);
      assert cs == [cs[0]] + cs[1..];
      assert forall i | 0 < i < |cs| :: cs[i] == cs[1..][i - 1];
      assert forall i | 0 <= i < |cs[1..]| :: cs[1..][i] == cs[i + 1];
      if cs[0].file.name !in gone {
        var r := StayingOnes(cs[1..], gone);
        assert ([cs[0]] + r)[1..] == r;
      }
    }
  }

  /** Listing the folder anew after a pruning gives the survivors of the loop, less those whose file went with another
      listing; that is all of them exactly when no file has both a listing that survives and one that does not. */
  lemma LeftAreSurvivors(dir: seq<DirFile>, lim: Limits)
    ensures var cs := Candidates(dir);
      var gone, survivors := Gone(lim, NOTHING, cs), Survivors(lim, NOTHING, cs);
      var left := Candidates(After(dir, gone));
      && left == StayingOnes(survivors, gone)
      && (left == survivors <==> forall i | 0 <= i < |survivors| :: survivors[i].file.name !in gone)
  {
    var cs := Candidates(dir);
    var gone := Gone(lim, NOTHING, cs);
    CandidatesAfter(dir, gone);
    DroppedGone(lim, NOTHING, cs, gone);
    AllStayExactlyWhen(Survivors(lim, NOTHING, cs), gone);
  }

  /** When no file counts as both kinds, that is always so, and the newest of each kind are the same as before. */
  lemma NewestAreLeft(dir: seq<DirFile>, lim: Limits)
    requires OneKindEach(dir)
    ensures var cs := Candidates(dir);
      var left := Candidates(After(dir, Gone(lim, NOTHING, cs)));
      left == Survivors(lim, NOTHING, cs) && Firsts(NOTHING, left) == Firsts(NOTHING, cs)
  {
    var cs := Candidates(dir);
    var gone := Gone(lim, NOTHING, cs);
    ListedOnce(dir);
    CandidatesAfter(dir, gone);
    SurvivorsStay(lim, NOTHING, cs, gone);
    FirstsSurvive(lim, NOTHING, cs);
  }

  lemma DistinctPair(cs: seq<Candidate>, i: nat, j: nat)
    requires DistinctBy(cs, CandidateName()) && i < |cs| && j < |cs| && i != j
    ensures cs[i].file.name != cs[j].file.name
  {
    var a, b := if i < j then i else j, if i < j then j else i;
    assert CandidateName()(cs[a]) != CandidateName()(cs[b]);
  }

  /** The newest file of each kind, if it is of that kind only, survives every pruning. */
  lemma NewestOfKindSurvives(dir: seq<DirFile>, lim: Limits, i: nat)
    requires OneKindEach(dir) && i < |Candidates(dir)|
    requires forall k | 0 <= k < i :: Candidates(dir)[k].human != Candidates(dir)[i].human
    ensures Candidates(dir)[i].file.name !in Gone(lim, NOTHING, Candidates(dir))
  {
    var cs := Candidates(dir);
    ListedOnce(dir);
    assert AlwaysNewest(NOTHING, cs, cs[i].file.name) by {
      forall j | 0 <= j < |cs| && cs[j].file.name == cs[i].file.name ensures j == i {
        if i != j {
          DistinctPair(cs, i, j);
        }
      }
    }
    NewestIsKept(lim, NOTHING, cs, cs[i].file.name);
  }

  const BOTH := DirFile("ufop.log.jsonl", [0], 5)
  const TWIN := DirFile("ufop.jsonl", [0], 9)

  lemma KindsOfBoth()
    ensures IsLog(BOTH, false) && IsLog(BOTH, true)
  {
    var s := BOTH.name;
    assert s[|s| - |JSON_MARK|..] == JSON_MARK;
    assert s == "ufop" + ".log.jsonl";
    ContainsBehind("ufop", ".log.jsonl", HUMAN_MARK);
  }

  lemma KindsOfTwin()
    ensures !IsLog(TWIN, false) && IsLog(TWIN, true)
  {
    var s := TWIN.name;
    assert s[|s| - |JSON_MARK|..] == JSON_MARK;
    ContainsNot(s, HUMAN_MARK);
  }

  lemma ListingsOfExample()
    ensures Listing([BOTH, TWIN], false) == [BOTH] && Listing([BOTH, TWIN], true) == [TWIN, BOTH]
  {
    KindsOfBoth();
    KindsOfTwin();
    KindOfTwo(BOTH, TWIN, true);
    KindOfFirst(BOTH, TWIN, false);
    SortTwo(BOTH, TWIN);
  }

  lemma MergedExample()
    ensures Mark([BOTH], true) + Mark([TWIN, BOTH], false) == [Candidate(BOTH, true), Candidate(TWIN, false), Candidate(BOTH, false)]
  {
    MarkIs([BOTH], true);
    MarkIs([TWIN, BOTH], false);
  }

  /** Of three, the middle one is the newest, and the others are equally old. */
  lemma SortThree(h: Candidate, t: Candidate, j: Candidate)
    requires t.file.modified > h.file.modified == j.file.modified
    ensures SortDescending([h, t, j], CandidateByTime()) == [t, h, j]
  {
    var key := CandidateByTime();
    assert [h, t, j][1..] == [t, j] && [t, j][1..] == [j] && [j][1..] == [];
    assert SortDescending([j], key) == [j];
    assert SortDescending([t, j], key) == [t, j];
    assert Insert([j], h, key) == [h, j];
  }

  lemma CandidatesOfExample()
    ensures Candidates([BOTH, TWIN]) == [Candidate(TWIN, false), Candidate(BOTH, true), Candidate(BOTH, false)]
  {
    ListingsOfExample();
    MergedExample();
    SortThree(Candidate(BOTH, true), Candidate(TWIN, false), Candidate(BOTH, false));
  }

  /** The second JSON log is not the newest of its kind. */
  lemma SecondOfKindGoes(lim: Limits, t: Candidate, h: Candidate, j: Candidate)
    requires !t.human && h.human && !j.human && Size(t) + Size(h) + Size(j) > lim.maxTotal
    ensures j.file.name in Gone(lim, NOTHING, [t, h, j])
  {
    var k1 := Keep(NOTHING, t);
    var k2 := Keep(k1, h);
    assert [t, h, j][1..] == [h, j] && [h, j][1..] == [j];
    assert !Drops(lim, NOTHING, t) && !Drops(lim, k1, h) && Drops(lim, k2, j);
    assert j.file.name in Gone(lim, k2, [j]);
    assert j.file.name in Gone(lim, k1, [h, j]);
  }

  /** A file that counts as both kinds can be removed although it is the newest, indeed the only, human log. */
  lemma BothKindsExample()
    ensures IsLog(BOTH, false) && !IsLog(TWIN, false)
    ensures BOTH.name in Gone(Limits(10, 100, 1), NOTHING, Candidates([BOTH, TWIN]))
  {
    KindsOfBoth();
    KindsOfTwin();
    CandidatesOfExample();
    SecondOfKindGoes(Limits(10, 100, 1), Candidate(TWIN, false), Candidate(BOTH, true), Candidate(BOTH, false));
  }

  // ---------- what goes ----------

  lemma {:induction false} TotalSnoc(cs: seq<Candidate>, c: Candidate)
    ensures Total(cs + [c]) == Total(cs) + |c.file.content|
  {
    var all := cs + [c];
    if cs == [] {
      assert all[1..] == [];
    } else {
      assert all[1..] == cs[1..] + [c];
      TotalSnoc(cs[1..], c);
    }
  }

  /** What is kept is a record of the survivors. */
  ghost predicate Records(k: Kept, l: Kept, cs: seq<Candidate>, s: seq<Candidate>) {
    && l.total == k.total + Total(s)
    && (l.human <==> k.human || exists i :: 0 <= i < |cs| && cs[i].human)
    && (l.json <==> k.json || exists i :: 0 <= i < |cs| && !cs[i].human)
  }

  /** What the loop has kept after going through `cs`. */
  function KeptAfter(lim: Limits, k: Kept, cs: seq<Candidate>): Kept
    decreases |cs|
  {
    if cs == [] then k else KeptAfter(lim, if Drops(lim, k, cs[0]) then k else Keep(k, cs[0]), cs[1..])
  }

  lemma {:induction false} KeptRecords(lim: Limits, k: Kept, cs: seq<Candidate>)
    ensures Records(k, KeptAfter(lim, k, cs), cs, Survivors(lim, k, cs))
    decreases |cs|
  {
    if cs != [] {
      var next := if Drops(lim, k, cs[0]) then k else Keep(k, cs[0]);
      var rest := cs[1..];
      KeptRecords(lim, next, rest);
      assert forall i | 0 < i < |cs| :: cs[i] == rest[i - 1];
      assert forall i | 0 <= i < |rest| :: rest[i] == cs[i + 1];
      if !Drops(lim, k, cs[0]) {
        var s := Survivors(lim, next, rest);
        assert ([cs[0]] + s)[1..] == s;
      }
    }
  }

  lemma {:induction false} OneMoreListing(lim: Limits, k: Kept, cs: seq<Candidate>, c: Candidate)
    ensures var drop, s := Drops(lim, KeptAfter(lim, k, cs), c), Survivors(lim, k, cs);
      && Survivors(lim, k, cs + [c]) == (if drop then s else s + [c])
      && Gone(lim, k, cs + [c]) == Gone(lim, k, cs) + (if drop then {c.file.name} else {})
    decreases |cs|
  {
    var all := cs + [c];
    if cs == [] {
      assert all[1..] == [];
    } else {
      assert all[1..] == cs[1..] + [c] && all[0] == cs[0];
      OneMoreListing(lim, if Drops(lim, k, cs[0]) then k else Keep(k, cs[0]), cs[1..], c);
    }
  }

  /** Going down the list, newest first: a log goes exactly when there was one of its kind before, and it is older than allowed
      or does not fit into the total beside the logs kept so far. */
  lemma GoesExactlyWhen(lim: Limits, cs: seq<Candidate>, c: Candidate)
    ensures var s := Survivors(lim, NOTHING, cs);
      var goes := (exists i :: 0 <= i < |cs| && cs[i].human == c.human)
        && (lim.now - c.file.modified > lim.maxAge || Total(s) + |c.file.content| > lim.maxTotal);
      && Survivors(lim, NOTHING, cs + [c]) == (if goes then s else s + [c])
      && Gone(lim, NOTHING, cs + [c]) == Gone(lim, NOTHING, cs) + (if goes then {c.file.name} else {})
  {
    KeptRecords(lim, NOTHING, cs);
    OneMoreListing(lim, NOTHING, cs, c);
  }

  lemma EmptyListing(lim: Limits)
    ensures Survivors(lim, NOTHING, []) == [] && Gone(lim, NOTHING, []) == {} && Total([]) == 0
  {
  }
}
