/** Facts about sequences that several modules rest on. */
module Sequences {

  lemma Associative<T>(a: seq<T>, b: seq<T>, c: seq<T>)
    ensures a + (b + c) == (a + b) + c
  {
  }

  function Reverse<T>(s: seq<T>): (r: seq<T>)
    ensures |r| == |s|
  {
    if s == [] then [] else Reverse(s[1..]) + [s[0]]
  }

  lemma {:induction false} ReverseConcat<T>(a: seq<T>, b: seq<T>)
    ensures Reverse(a + b) == Reverse(b) + Reverse(a)
  {
    if a == [] {
      assert a + b == b;
    } else {
      ReverseConcat(a[1..], b);
      assert (a + b)[1..] == a[1..] + b;
    }
  }

  predicate Contains(s: string, part: string) {
    part <= s || (s != [] && Contains(s[1..], part))
  }

  ghost predicate OccursAt(s: string, part: string, i: nat) {
    i + |part| <= |s| && s[i..i + |part|] == part
  }

  ghost predicate Occurs(s: string, part: string) {
    exists i: nat :: OccursAt(s, part, i)
  }

  /** A part is contained exactly when some slice of the string is equal to it. */
  lemma {:induction false} ContainsExactlyWhen(s: string, part: string)
    ensures Contains(s, part) <==> Occurs(s, part)
  {
    assert part <= s <==> OccursAt(s, part, 0) by {
      if part <= s { assert s[0..|part|] == part; }
    }
    if s != [] {
      var rest := s[1..];
      ContainsExactlyWhen(rest, part);
      forall i: nat ensures OccursAt(rest, part, i) <==> OccursAt(s, part, i + 1) {
        if i + |part| <= |rest| {
          assert rest[i..i + |part|] == s[i + 1..i + 1 + |part|];
        }
      }
      if i: nat :| OccursAt(s, part, i) {
        if i > 0 { assert OccursAt(rest, part, i - 1); }
      }
      if i: nat :| OccursAt(rest, part, i) {
        assert OccursAt(s, part, i + 1);
      }
    } else if i: nat :| OccursAt(s, part, i) {
      assert part == [];
    }
  }

  /** The last element comes first, and so on. */
  lemma {:induction false} ReverseAt<T>(s: seq<T>, k: nat)
    requires k < |s|
    ensures Reverse(s)[k] == s[|s| - 1 - k]
  {
    if k < |s| - 1 {
      ReverseAt(s[1..], k);
    }
  }

  lemma {:induction false} ContainsBehind(front: string, s: string, part: string)
    requires part <= s
    ensures Contains(front + s, part)
  {
    if front == [] {
      assert front + s == s;
    } else {
      ContainsBehind(front[1..], s, part);
      assert (front + s)[1..] == front[1..] + s;
    }
  }

  lemma PrefixHead(s: string, part: string)
    requires part <= s && |part| >= 2
    ensures |s| >= 2 && s[0] == part[0] && s[1] == part[1]
  {
  }

  /** Without its first two characters next to each other, a part does not occur. */
  lemma {:induction false} ContainsNot(s: string, part: string)
    requires |part| >= 2 && forall k | 0 <= k < |s| - 1 && s[k] == part[0] :: s[k + 1] != part[1]
    ensures !Contains(s, part)
  {
    if s != [] {
      ContainsNot(s[1..], part);
      if part <= s {
        PrefixHead(s, part);
      }
    }
  }

  predicate EndsWith(s: string, part: string) {
    |part| <= |s| && s[|s| - |part|..] == part
  }

  function Min(a: nat, b: nat): (r: nat)
    ensures r <= a && r <= b && (r == a || r == b)
  {
    if a <= b then a else b
  }

  function Max(a: nat, b: nat): (r: nat)
    ensures r >= a && r >= b && (r == a || r == b)
  {
    if a <= b then b else a
  }

  lemma EndsExactlyWhen(s: string, part: string)
    ensures EndsWith(s, part) <==> exists front :: s == front + part
  {
    if EndsWith(s, part) {
      assert s == s[..|s| - |part|] + part;
    }
  }
}
