/** Record ids, which double as paging cursors: `<date>@<byte offset>`. */
module Cursor {
  import opened Wrappers

  const U64_LIMIT: nat := 0x1_0000_0000_0000_0000

  function Digit(d: nat): char
    requires d < 10
  {
    "0123456789"[d]
  }

  function Decimal(n: nat): string {
    if n < 10 then [Digit(n)] else Decimal(n / 10) + [Digit(n % 10)]
  }

  predicate IsDigit(c: char) { '0' <= c <= '9' }

  /** The value of a string of digits; a string with anything else has none. */
  function DigitsValue(s: string): Option<nat> {
    if s == [] then Some(0)
    else
      var c := s[|s| - 1];
      match DigitsValue(s[..|s| - 1])
      case None => None
      case Some(v) => if IsDigit(c) then Some(v * 10 + (c as int - '0' as int)) else None
  }

  /** An unsigned 64-bit number: an optional `+`, at least one digit, no overflow. */
  function ParseU64(s: string): Option<nat> {
    var digits := if s != [] && s[0] == '+' then s[1..] else s;
    match if digits == [] then None else DigitsValue(digits)
    case Some(v) => if v < U64_LIMIT then Some(v) else None
    case None => None
  }

  function FormatId(date: string, offset: nat): string {
    date + "@" + Decimal(offset)
  }

  /** The index of the first `@`, or the length. */
  function FirstAt(s: string): (k: nat)
    ensures k <= |s|
  {
    if s == [] || s[0] == '@' then 0 else FirstAt(s[1..]) + 1
  }

  datatype Position = Position(date: string, offset: nat)

  function SplitCursor(cursor: string): Result<Position, string> {
    var k := FirstAt(cursor);
    match if k == |cursor| then None else ParseU64(cursor[k + 1..])
    case Some(offset) => Ok(Position(cursor[..k], offset))
    case None => Err("That log position is not valid; reload the log")
  }

  lemma {:induction false} DecimalValue(n: nat)
    ensures Decimal(n) != [] && IsDigit(Decimal(n)[0])
    ensures DigitsValue(Decimal(n)) == Some(n)
  {
    if n >= 10 {
      DecimalValue(n / 10);
      var s := Decimal(n);
      assert s[..|s| - 1] == Decimal(n / 10);
    } else {
      assert Decimal(n)[..0] == [];
    }
  }

  lemma {:induction false} NotDigits(s: string, i: nat)
    requires i < |s| && !IsDigit(s[i])
    ensures DigitsValue(s) == None
  {
    if i < |s| - 1 {
      NotDigits(s[..|s| - 1], i);
    }
  }

  lemma {:induction false} FirstAtIn(a: string, b: string)
    ensures FirstAt(a + "@" + b) == FirstAt(a)
    ensures '@' in a <==> FirstAt(a) < |a|
  {
    var s := a + "@" + b;
    if a != [] {
      assert s[1..] == a[1..] + "@" + b;
      FirstAtIn(a[1..], b);
    }
  }

  /** The id of a record leads back to it exactly when the day's name has no `@`. */
  lemma CursorRoundTrip(date: string, offset: nat)
    requires offset < U64_LIMIT
    ensures SplitCursor(FormatId(date, offset)) == Ok(Position(date, offset)) <==> '@' !in date
    ensures '@' in date ==> SplitCursor(FormatId(date, offset)).Err?
  {
    var s := FormatId(date, offset);
    FirstAtIn(date, Decimal(offset));
    DecimalValue(offset);
    var k := FirstAt(date);
    if k == |date| {
      assert s[k + 1..] == Decimal(offset) && s[..k] == date;
    } else {
      var o := s[k + 1..];
      assert o[|date| - k - 1] == '@';
      if o[0] == '+' {
        NotDigits(o[1..], |date| - k - 2);
      } else {
        NotDigits(o, |date| - k - 1);
      }
    }
  }

  /** A cursor splits at its first `@`, and what follows must be a number. */
  lemma SplitExactlyWhen(cursor: string, date: string, offset: nat)
    ensures SplitCursor(cursor) == Ok(Position(date, offset)) <==>
      && '@' !in date && |date| < |cursor| && cursor[..|date|] == date && cursor[|date|] == '@'
      && ParseU64(cursor[|date| + 1..]) == Some(offset)
  {
    if |date| <= |cursor| {
      FirstAtIs(cursor, |date|);
    }
  }

  lemma {:induction false} FirstAtIs(s: string, k: nat)
    requires k <= |s|
    ensures FirstAt(s) == k <==> (k < |s| ==> s[k] == '@') && '@' !in s[..k]
  {
    if s != [] {
      if k > 0 {
        FirstAtIs(s[1..], k - 1);
        assert s[..k] == [s[0]] + s[1..][..k - 1];
      }
    }
  }

  lemma {:induction false} DigitsExactlyWhen(s: string)
    ensures DigitsValue(s).Some? <==> forall i | 0 <= i < |s| :: '0' <= s[i] <= '9'
  {
    if s != [] {
      DigitsExactlyWhen(s[..|s| - 1]);
    }
  }

  /** An optional `+`, then digits, at least one, and below 2 to the 64. */
  lemma ParsesExactlyWhen(s: string)
    ensures var digits := if s != "" && s[0] == '+' then s[1..] else s;
      ParseU64(s).Some? <==>
        && digits != "" && (forall i | 0 <= i < |digits| :: '0' <= digits[i] <= '9')
        && DigitsValue(digits).GetOr(0) < 18446744073709551616
    ensures ParseU64(s).Some? ==> Some(ParseU64(s).value) == DigitsValue(if s[0] == '+' then s[1..] else s)
  {
    DigitsExactlyWhen(if s != "" && s[0] == '+' then s[1..] else s);
  }

  lemma NumbersExample()
    ensures DigitsValue("1024") == Some(1024) && Decimal(1024) == "1024"
  {
    assert "1024"[..3] == "102" && "102"[..2] == "10" && "10"[..1] == "1" && "1"[..0] == "";
    assert DigitsValue("1") == Some(1) && DigitsValue("10") == Some(10) && DigitsValue("102") == Some(102);
    assert Decimal(1) == "1" && Decimal(10) == "10" && Decimal(102) == "102";
  }
}
