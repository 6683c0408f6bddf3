/** How many bytes one call reads. */
module ReadBudget {
  import opened Wrappers
  import opened Sequences
  import opened LogRecords
  import opened LogQuery
  import opened Cursor
  import LogLines

  /** The records lie ever deeper between `from` and `to`, and each comes up once the bytes down to it are read, and at most
      one block more. */
  ghost predicate Measured(items: seq<Item>, block: nat, from: nat, to: nat) {
    && from <= to
    && (forall j | 0 <= j < |items| ::
      from < items[j].depth <= to && items[j].depth <= items[j].read <= items[j].depth + block)
    && (forall j, k | 0 <= j < k < |items| :: items[j].depth < items[k].depth)
  }

  lemma MeasuredStep(item: Item, rest: seq<Item>, block: nat, from: nat, to: nat)
    requires Measured(rest, block, item.depth, to)
    requires from < item.depth && item.depth <= item.read <= item.depth + block
    ensures Measured([item] + rest, block, from, to)
  {
    var all := [item] + rest;
    assert forall j | 0 < j < |all| :: all[j] == rest[j - 1];
  }

  lemma MeasuredFrom(items: seq<Item>, block: nat, from: nat, lower: nat, to: nat)
    requires Measured(items, block, lower, to) && from <= lower
    ensures Measured(items, block, from, to)
  {
  }

  lemma {:induction false} DayMeasured(p: Parsers, d: DayFile, end: nat, block: nat, before: nat, pos: nat, rest: seq<Item>, to: nat)
    requires pos <= end <= |d.content| && block > 0
    requires Measured(rest, block, before + end, to)
    ensures Measured(DayItems(p, d, end, block, before, pos, rest), block, before + end - pos, to)
    decreases pos
  {
    match LastRecord(p, d, pos, [])
    case None => MeasuredFrom(rest, block, before + end - pos, before + end, to);
    case Some(e) =>
      DayMeasured(p, d, end, block, before, e.offset, rest, to);
      var item := DayItem(d, end, block, before, e);
      MeasuredStep(item, DayItems(p, d, end, block, before, e.offset, rest), block, before + end - pos, to);
  }

  lemma CallItemsDay(p: Parsers, days: seq<DayFile>, resume: Option<Position>, block: nat, before: nat, end: nat)
    requires days != [] && StartOf(days[0], resume) == Some(end) && block > 0
    ensures CallItems(p, days, resume, block, before)
      == DayItems(p, days[0], end, block, before, end, CallItems(p, days[1..], resume, block, before + end))
  {
  }

  lemma OneMoreDay(p: Parsers, days: seq<DayFile>, resume: Option<Position>, block: nat, before: nat, end: nat, to: nat)
    requires days != [] && StartOf(days[0], resume) == Some(end) && block > 0
    requires Measured(CallItems(p, days[1..], resume, block, before + end), block, before + end, to)
    ensures Measured(CallItems(p, days, resume, block, before), block, before, to)
  {
    CallItemsDay(p, days, resume, block, before, end);
    DayMeasured(p, days[0], end, block, before, end, CallItems(p, days[1..], resume, block, before + end), to);
  }

  lemma {:induction false} CallMeasured(p: Parsers, days: seq<DayFile>, resume: Option<Position>, block: nat, before: nat)
    requires block > 0
    ensures Measured(CallItems(p, days, resume, block, before), block, before, before + Whole(days, resume))
  {
    if days != [] {
      match StartOf(days[0], resume)
      case None => CallMeasured(p, days[1..], resume, block, before);
      case Some(end) =>
        CallMeasured(p, days[1..], resume, block, before + end);
        OneMoreDay(p, days, resume, block, before, end, before + Whole(days, resume));
    }
  }

  /** How deep record `n` lies, or the bottom of the log. */
  function DepthAt(items: seq<Item>, n: nat, whole: nat): nat
    requires n <= |items|
  {
    if n < |items| then items[n].depth else whole
  }

  /** How deep the record before it lies, or the top. */
  function DepthBefore(items: seq<Item>, n: nat, top: nat): nat
    requires n <= |items|
  {
    if n == 0 then top else items[n - 1].depth
  }

  /** What a call has read when it ends: down to the record that ends it, or all there is, and at most one block more; the
      record before that one was still within the budget. */
  lemma {:induction false} ReadUpTo(env: Env, f: Filters, limit: nat, budget: nat, items: seq<Item>, taken: nat, whole: nat, block: nat, top: nat)
    returns (n: nat)
    requires Measured(items, block, top, whole)
    ensures n <= |items|
    ensures var r := BytesRead(env, f, limit, budget, items, taken, whole);
      && DepthAt(items, n, whole) <= r <= DepthAt(items, n, whole) + (if n < |items| then block else 0)
      && DepthBefore(items, n, top) <= DepthAt(items, n, whole)
      && (n > 0 ==> DepthBefore(items, n, top) < budget)
    decreases |items|
  {
    n := 0;
    if items != [] {
      var r, rest := items[0].spot.record, items[1..];
      var now := if Keeps(env, f, r) then taken + 1 else taken;
      if !(Older(env, f, r) || (Keeps(env, f, r) && now >= limit) || items[0].read >= budget) {
        assert forall j | 0 <= j < |rest| :: rest[j] == items[j + 1];
        n := ReadUpTo(env, f, limit, budget, rest, now, whole, block, items[0].depth);
        n := n + 1;
      }
    }
  }

  /** From one record to the next, and from the last one to the bottom, it is at most `gap` bytes. */
  ghost predicate GapsAtMost(items: seq<Item>, whole: nat, gap: nat) {
    forall n: nat | n <= |items| :: DepthAt(items, n, whole) <= DepthBefore(items, n, 0) + gap
  }

  /** A call reads at most its budget, the longest stretch of the log without the start of a record, and one block. */
  lemma MostBytesRead(env: Env, f: Filters, limit: nat, budget: nat, days: seq<DayFile>, resume: Option<Position>, block: nat, gap: nat)
    requires block > 0
    requires GapsAtMost(CallItems(env.p, days, resume, block, 0), Whole(days, resume), gap)
    ensures BytesRead(env, f, limit, budget, CallItems(env.p, days, resume, block, 0), 0, Whole(days, resume)) <= budget + gap + block
  {
    var items, whole := CallItems(env.p, days, resume, block, 0), Whole(days, resume);
    CallMeasured(env.p, days, resume, block, 0);
    var n := ReadUpTo(env, f, limit, budget, items, 0, whole, block, 0);
    assert DepthAt(items, n, whole) <= DepthBefore(items, n, 0) + gap;
  }

  // ---------- when the budget holds ----------

  /** Going down the log, the first record that comes up with the budget used up comes up at exactly the budget; if there is
      none, the whole log fits. */
  predicate StaysWithin(items: seq<Item>, budget: nat, whole: nat) {
    if items == [] then whole <= budget
    else items[0].read == budget || (items[0].read < budget && StaysWithin(items[1..], budget, whole))
  }

  lemma {:induction false} WithinBudget(env: Env, f: Filters, limit: nat, budget: nat, items: seq<Item>, taken: nat, whole: nat)
    requires StaysWithin(items, budget, whole)
    ensures BytesRead(env, f, limit, budget, items, taken, whole) <= budget
    decreases |items|
  {
    if items != [] && items[0].read < budget {
      var now := if Keeps(env, f, items[0].spot.record) then taken + 1 else taken;
      WithinBudget(env, f, limit, budget, items[1..], now, whole);
    }
  }

  /** A text longer than any message and fields. */
  function LongText(env: Env, items: seq<Item>): string {
    if items == [] then "x"
    else
      var e := items[0].spot.record.event;
      Lower(env, e.message) + Lower(env, e.fields.GetOr("")) + LongText(env, items[1..])
  }

  function Lower(env: Env, s: string): string {
    Find(env.lower, s).GetOr(s)
  }

  lemma {:induction false} LongIsNotContained(s: string, part: string)
    requires |s| < |part|
    ensures !Contains(s, part)
  {
    if s != [] {
      LongIsNotContained(s[1..], part);
    }
  }

  lemma {:induction false} NothingMentions(env: Env, items: seq<Item>, text: string, j: nat)
    requires j < |items| && |LongText(env, items)| <= |text|
    ensures !Matches(env, NO_FILTERS.(text := Some(text)), items[j].spot.record.event)
    decreases |items|
  {
    if j > 0 {
      NothingMentions(env, items[1..], text, j - 1);
    } else {
      var e := items[0].spot.record.event;
      assert |LongText(env, items[1..])| > 0 by { LongTextNotEmpty(env, items[1..]); }
      LongIsNotContained(Lower(env, e.message), text);
      LongIsNotContained(Lower(env, e.fields.GetOr("")), text);
    }
  }

  lemma {:induction false} LongTextNotEmpty(env: Env, items: seq<Item>)
    ensures |LongText(env, items)| > 0
  {
    if items != [] {
      LongTextNotEmpty(env, items[1..]);
    }
  }

  /** A filter that matches nothing reads on until the budget is used up. */
  lemma {:induction false} NothingMatches(env: Env, limit: nat, budget: nat, items: seq<Item>, taken: nat, whole: nat, text: string)
    requires |LongText(env, items)| <= |text|
    requires BytesRead(env, NO_FILTERS.(text := Some(text)), limit, budget, items, taken, whole) <= budget
    ensures StaysWithin(items, budget, whole)
    decreases |items|
  {
    if items != [] {
      NothingMentions(env, items, text, 0);
      if items[0].read < budget {
        NothingMatches(env, limit, budget, items[1..], taken, whole, text);
      }
    }
  }

  /** Whatever is asked for, a call does not read more than its budget. */
  ghost predicate BudgetHolds(env: Env, limit: nat, budget: nat, items: seq<Item>, whole: nat) {
    forall f :: BytesRead(env, f, limit, budget, items, 0, whole) <= budget
  }

  /** The budget is the most bytes a call reads, whatever its filters, exactly when the log is such that the first record at or
      past the budget comes up at exactly the budget. */
  lemma BudgetHoldsExactlyWhen(env: Env, limit: nat, budget: nat, items: seq<Item>, whole: nat)
    ensures BudgetHolds(env, limit, budget, items, whole) <==> StaysWithin(items, budget, whole)
  {
    if StaysWithin(items, budget, whole) {
      forall f: Filters ensures BytesRead(env, f, limit, budget, items, 0, whole) <= budget {
        WithinBudget(env, f, limit, budget, items, 0, whole);
      }
    } else if BudgetHolds(env, limit, budget, items, whole) {
      var f := NO_FILTERS.(text := Some(LongText(env, items)));
      assert BytesRead(env, f, limit, budget, items, 0, whole) <= budget;
      NothingMatches(env, limit, budget, items, 0, whole, LongText(env, items));
    }
  }

  lemma {:induction false} NoRecord(p: Parsers, d: DayFile, end: nat, pending: seq<string>)
    requires p.json == map[] && d.json && end <= |d.content|
    ensures LastRecord(p, d, end, pending) == None
    decreases end
  {
    var line := LogLines.LastLine(d.content, end);
    if line.Some? {
      NoRecord(p, d, line.value.offset, pending);
    }
  }

  /** For instance a file none of whose lines is a JSON record is read whole, however large it is and however small the budget. */
  lemma UnreadableFileExample(env: Env, f: Filters, limit: nat, budget: nat, d: DayFile, block: nat)
    requires env.p.json == map[] && d.json && block > 0
    ensures BytesRead(env, f, limit, budget, CallItems(env.p, [d], None, block, 0), 0, Whole([d], None)) == |d.content|
    ensures Cut(env, f, limit, budget, CallItems(env.p, [d], None, block, 0), EMPTY_PAGE) == EMPTY_PAGE
  {
    NoRecord(env.p, d, |d.content|, []);
    assert [d][1..] == [];
    assert CallItems(env.p, [], None, block, |d.content|) == [];
    assert Whole([d], None) == |d.content| + Whole([], None);
  }
}
