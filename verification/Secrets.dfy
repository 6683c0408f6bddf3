/** Placeholders in CLI values: `$name`, `${name}` and `$$`. */
module Secrets {
  import opened Wrappers
  import opened Sequences

  datatype Lookup = Found(value: string) | Absent | Failed(message: string)

  /** What each provider answers for each name; a provider that is not in the table does not have it. */
  type Providers = Table<(string, string), Lookup>

  type Text = Result<string, string>

  predicate NameChar(c: char) {
    || 'a' <= c <= 'z' || 'A' <= c <= 'Z' || '0' <= c <= '9'
    || c == '_' || c == '-' || c == '.' || c == '/' || c == ':' || c == '#' || c == '@'
  }

  predicate IsName(n: string) {
    n != "" && forall i | 0 <= i < |n| :: NameChar(n[i])
  }

  function Ask(t: Providers, provider: string, name: string): Lookup {
    Find(t, (provider, name)).GetOr(Absent)
  }

  function Join(parts: seq<string>, separator: string): string {
    if parts == [] then "" else if |parts| == 1 then parts[0] else parts[0] + separator + Join(parts[1..], separator)
  }

  function NotFound(name: string, errors: seq<string>): string {
    if errors == [] then "secret '" + name + "' was not found" else "secret '" + name + "': " + Join(errors, "; ")
  }

  /** The first provider that has the name decides; the errors of those before it are forgotten. */
  function AskAll(t: Providers, providers: seq<string>, name: string, errors: seq<string>): Text {
    if providers == [] then Err(NotFound(name, errors))
    else
      match Ask(t, providers[0], name)
      case Found(v) => Ok(v)
      case Absent => AskAll(t, providers[1..], name, errors)
      case Failed(e) => AskAll(t, providers[1..], name, errors + [e])
  }

  function ResolveName(t: Providers, providers: seq<string>, name: string): Text {
    if providers == [] then Err("'$" + name + "' needs a --secret-provider") else AskAll(t, providers, name, [])
  }

  /** The answer of the first provider that has the name. */
  function FirstFound(t: Providers, providers: seq<string>, name: string): Option<string> {
    if providers == [] then None
    else
      match Ask(t, providers[0], name)
      case Found(v) => Some(v)
      case _ => FirstFound(t, providers[1..], name)
  }

  /** A name resolves to that answer, and fails exactly when no provider has it; errors of others do not matter. */
  lemma {:induction false} FirstProviderDecides(t: Providers, providers: seq<string>, name: string, errors: seq<string>)
    ensures match FirstFound(t, providers, name)
      case Some(v) => AskAll(t, providers, name, errors) == Ok(v)
      case None => AskAll(t, providers, name, errors).Err?
    decreases |providers|
  {
    if providers != [] {
      match Ask(t, providers[0], name)
      case Found(_) =>
      case Absent => FirstProviderDecides(t, providers[1..], name, errors);
      case Failed(e) => FirstProviderDecides(t, providers[1..], name, errors + [e]);
    }
  }

  /** The loop over the providers. */
  method LookUp(t: Providers, providers: seq<string>, name: string) returns (r: Text)
    ensures r == ResolveName(t, providers, name)
  {
    if providers == [] {
      return Err("'$" + name + "' needs a --secret-provider");
    }
    var errors: seq<string> := [];
    var left := providers;
    while left != []
      invariant AskAll(t, left, name, errors) == AskAll(t, providers, name, [])
      decreases |left|
    {
      match Ask(t, left[0], name) {
        case Found(v) => return Ok(v);
        case Absent =>
        case Failed(e) => errors := errors + [e];
      }
      left := left[1..];
    }
    r := Err(NotFound(name, errors));
  }

  /** Where the first `c` is, or the length. */
  function IndexOf(s: string, c: char): (k: nat)
    ensures k <= |s| && forall i | 0 <= i < k :: s[i] != c
  {
    if s == "" || s[0] == c then 0 else IndexOf(s[1..], c) + 1
  }

  /** `{name}` at the front: the name, and what follows. */
  function Braced(s: string): Option<(string, string)> {
    if s == "" || s[0] != '{' then None
    else
      var k := IndexOf(s[1..], '}');
      if k == |s| - 1 || !IsName(s[1..][..k]) then None else Some((s[1..][..k], s[1..][k + 1..]))
  }

  function Prepend(front: string, rest: Text): Text {
    match rest
    case Ok(s) => Ok(front + s)
    case Err(e) => Err(e)
  }

  /** Expansion without a cache, one character or placeholder at a time. */
  function Expand(t: Providers, providers: seq<string>, s: string): Text
    decreases |s|
  {
    if s == "" then Ok("")
    else if s[0] != '$' then Prepend([s[0]], Expand(t, providers, s[1..]))
    else if |s| > 1 && s[1] == '$' then Prepend("$", Expand(t, providers, s[2..]))
    else
      match Braced(s[1..])
      case None => Prepend("$", Expand(t, providers, s[1..]))
      case Some((name, rest)) =>
        match ResolveName(t, providers, name)
        case Err(e) => Err(e)
        case Ok(v) => Prepend(v, Expand(t, providers, rest))
  }

  /** `$name` and nothing else. */
  predicate IsShorthand(value: string) {
    value != "" && value[0] == '$' && IsName(value[1..])
  }

  function Resolve(t: Providers, providers: seq<string>, value: string): Text {
    if IsShorthand(value) then ResolveName(t, providers, value[1..])
    else if !Contains(value, "${") && !Contains(value, "$$") then Ok(value)
    else Expand(t, providers, value)
  }

  lemma {:induction false} PrependTwice(a: string, b: string, rest: Text)
    ensures Prepend(a, Prepend(b, rest)) == Prepend(a + b, rest)
  {
    if rest.Ok? {
      Associative(a, b, rest.value);
    }
  }

  /** Text up to the next `$` stands for itself. */
  lemma {:induction false} ExpandLiteral(t: Providers, providers: seq<string>, front: string, rest: string)
    requires '$' !in front
    ensures Expand(t, providers, front + rest) == Prepend(front, Expand(t, providers, rest))
  {
    if front == "" {
      assert front + rest == rest;
      var e := Expand(t, providers, rest);
      assert e.Ok? ==> "" + e.value == e.value;
    } else {
      var s := front + rest;
      assert s[1..] == front[1..] + rest;
      ExpandLiteral(t, providers, front[1..], rest);
      PrependTwice([front[0]], front[1..], Expand(t, providers, rest));
      assert [front[0]] + front[1..] == front;
    }
  }

  /** Without `${` and `$$` the text is its own expansion, so the early return changes nothing. */
  lemma {:induction false} PlainText(t: Providers, providers: seq<string>, s: string)
    requires !Contains(s, "${") && !Contains(s, "$$")
    ensures Expand(t, providers, s) == Ok(s)
  {
    if s != "" {
      PlainText(t, providers, s[1..]);
      assert s == [s[0]] + s[1..];
      if s[0] == '$' && |s| > 1 {
        assert s[1] != '$' && s[1] != '{' by {
          assert "$$" <= s <==> s[..2] == "$$";
          assert "${" <= s <==> s[..2] == "${";
          assert s[..2] == [s[0], s[1]];
        }
      }
    }
  }

  /** A cache of resolved names, and the names looked up so far. */
  ghost predicate IsCache(t: Providers, providers: seq<string>, cache: map<string, string>, looked: seq<string>) {
    && (forall n | n in cache :: ResolveName(t, providers, n) == Ok(cache[n]))
    && (forall i | 0 <= i < |looked| :: looked[i] in cache)
    && OnceEach(looked)
  }

  ghost predicate OnceEach(names: seq<string>) {
    forall i, j | 0 <= i < j < |names| :: names[i] != names[j]
  }

  /** The value of a name, from the cache if it is there. */
  method Cached(t: Providers, providers: seq<string>, name: string, before: map<string, string>, ghost lookedBefore: seq<string>)
    returns (v: Text, cache: map<string, string>, ghost looked: seq<string>)
    requires IsCache(t, providers, before, lookedBefore)
    ensures v == ResolveName(t, providers, name)
    ensures if v.Ok? then IsCache(t, providers, cache, looked) else OnceEach(looked)
  {
    cache, looked := before, lookedBefore;
    if name !in cache {
      looked := looked + [name];
      v := LookUp(t, providers, name);
      if v.Err? {
        return;
      }
      cache := cache[name := v.value];
    }
    v := Ok(cache[name]);
  }

  /** What stands at the front of `rest`, which starts with `$`: what it expands to, and what follows. */
  function Placeholder(t: Providers, providers: seq<string>, rest: string): (Text, string)
    requires rest != ""
  {
    var after := rest[1..];
    if after != "" && after[0] == '$' then (Ok("$"), after[1..])
    else
      match Braced(after)
      case None => (Ok("$"), after)
      case Some((name, more)) => (ResolveName(t, providers, name), more)
  }

  lemma ExpandPlaceholder(t: Providers, providers: seq<string>, rest: string)
    requires rest != "" && rest[0] == '$'
    ensures var (v, more) := Placeholder(t, providers, rest);
      Expand(t, providers, rest) == if v.Ok? then Prepend(v.value, Expand(t, providers, more)) else v
  {
    assert |rest| > 1 ==> rest[2..] == rest[1..][1..];
  }

  /** The expansion loop: each name is looked up at most once; `looked` lists the names in order. */
  method ExpandAll(t: Providers, providers: seq<string>, value: string) returns (r: Text, ghost looked: seq<string>)
    ensures r == Expand(t, providers, value) && OnceEach(looked)
  {
    var cache: map<string, string> := map[];
    var out, rest := "", value;
    looked := [];
    ghost var goal := Expand(t, providers, value);
    assert goal.Ok? ==> "" + goal.value == goal.value;
    while '$' in rest
      invariant Prepend(out, Expand(t, providers, rest)) == goal
      invariant IsCache(t, providers, cache, looked)
      decreases |rest|
    {
      var i := IndexOf(rest, '$');
      SplitAtDollar(t, providers, out, rest, i);
      out := out + rest[..i];
      rest := rest[i..];
      ExpandPlaceholder(t, providers, rest);
      var after := rest[1..];
      var v, more := Ok("$"), after;
      if after != "" && after[0] == '$' {
        more := after[1..];
      } else {
        match Braced(after) {
          case None =>
          case Some(braced) =>
            more := braced.1;
            v, cache, looked := Cached(t, providers, braced.0, cache, looked);
            if v.Err? {
              return v, looked;
            }
        }
      }
      PrependTwice(out, v.value, Expand(t, providers, more));
      out := out + v.value;
      rest := more;
    }
    assert rest + "" == rest;
    ExpandLiteral(t, providers, rest, "");
    r := Ok(out + rest);
  }

  lemma {:induction false} IndexOfFinds(s: string, c: char)
    requires c in s
    ensures IndexOf(s, c) < |s| && s[IndexOf(s, c)] == c
  {
    if s[0] != c {
      IndexOfFinds(s[1..], c);
    }
  }

  lemma SplitAtDollar(t: Providers, providers: seq<string>, out: string, rest: string, i: nat)
    requires '$' in rest && i == IndexOf(rest, '$')
    ensures i < |rest| && rest[i] == '$'
    ensures Prepend(out, Expand(t, providers, rest)) == Prepend(out + rest[..i], Expand(t, providers, rest[i..]))
  {
    IndexOfFinds(rest, '$');
    assert rest == rest[..i] + rest[i..];
    ExpandLiteral(t, providers, rest[..i], rest[i..]);
    PrependTwice(out, rest[..i], Expand(t, providers, rest[i..]));
  }

  /** Resolve placeholders in a value; no name is looked up twice. */
  method ResolveValue(t: Providers, providers: seq<string>, value: string) returns (r: Text, ghost looked: seq<string>)
    ensures r == Resolve(t, providers, value) && OnceEach(looked)
  {
    looked := [];
    if IsShorthand(value) {
      looked := [value[1..]];
      r := LookUp(t, providers, value[1..]);
    } else if !Contains(value, "${") && !Contains(value, "$$") {
      r := Ok(value);
    } else {
      r, looked := ExpandAll(t, providers, value);
    }
  }

  // ---------- templates ----------

  datatype Part = Literal(text: string) | Reference(name: string)

  /** Each `$` doubled. */
  function Escape(text: string): string {
    if text == "" then "" else (if text[0] == '$' then "$$" else [text[0]]) + Escape(text[1..])
  }

  function PrintPart(p: Part): string {
    match p
    case Literal(text) => Escape(text)
    case Reference(name) => "${" + name + "}"
  }

  function Print(parts: seq<Part>): string {
    if parts == [] then "" else PrintPart(parts[0]) + Print(parts[1..])
  }

  ghost predicate ValidParts(parts: seq<Part>) {
    forall i | 0 <= i < |parts| :: parts[i].Reference? ==> IsName(parts[i].name)
  }

  /** What a template means: its literals and secrets in order, or the error of the first name that does not resolve. */
  function Meaning(t: Providers, providers: seq<string>, parts: seq<Part>): Text {
    if parts == [] then Ok("")
    else
      match parts[0]
      case Literal(text) => Prepend(text, Meaning(t, providers, parts[1..]))
      case Reference(name) =>
        match ResolveName(t, providers, name)
        case Err(e) => Err(e)
        case Ok(v) => Prepend(v, Meaning(t, providers, parts[1..]))
  }

  /** One escaped character in front of `more`. */
  lemma ExpandOne(t: Providers, providers: seq<string>, c: char, more: string)
    ensures Expand(t, providers, (if c == '$' then "$$" else [c]) + more) == Prepend([c], Expand(t, providers, more))
  {
    var s := (if c == '$' then "$$" else [c]) + more;
    if c == '$' {
      assert s[2..] == more;
    } else {
      assert s[1..] == more;
    }
  }

  lemma {:induction false} ExpandEscaped(t: Providers, providers: seq<string>, text: string, rest: string)
    ensures Expand(t, providers, Escape(text) + rest) == Prepend(text, Expand(t, providers, rest))
  {
    var e := Expand(t, providers, rest);
    if text == "" {
      assert "" + rest == rest;
      assert e.Ok? ==> "" + e.value == e.value;
    } else {
      var one := if text[0] == '$' then "$$" else [text[0]];
      Associative(one, Escape(text[1..]), rest);
      ExpandOne(t, providers, text[0], Escape(text[1..]) + rest);
      ExpandEscaped(t, providers, text[1..], rest);
      PrependTwice([text[0]], text[1..], e);
      assert [text[0]] + text[1..] == text;
    }
  }

  lemma {:induction false} IndexOfBehind(front: string, c: char, rest: string)
    requires forall i | 0 <= i < |front| :: front[i] != c
    ensures IndexOf(front + [c] + rest, c) == |front|
  {
    var s := front + [c] + rest;
    if front != "" {
      assert s[1..] == front[1..] + [c] + rest;
      IndexOfBehind(front[1..], c, rest);
    }
  }

  lemma BracedName(name: string, rest: string)
    requires IsName(name)
    ensures Braced("{" + name + "}" + rest) == Some((name, rest))
  {
    var s, body := "{" + name + "}" + rest, name + "}" + rest;
    assert s[1..] == body;
    IndexOfBehind(name, '}', rest);
    assert body[..|name|] == name && body[|name| + 1..] == rest;
  }

  lemma ExpandReference(t: Providers, providers: seq<string>, name: string, rest: string)
    requires IsName(name)
    ensures var e, v := Expand(t, providers, "${" + name + "}" + rest), ResolveName(t, providers, name);
      e == if v.Ok? then Prepend(v.value, Expand(t, providers, rest)) else v
  {
    var s := "${" + name + "}" + rest;
    assert s[1..] == "{" + name + "}" + rest;
    BracedName(name, rest);
    ExpandPlaceholder(t, providers, s);
  }

  lemma {:induction false} ExpandPrinted(t: Providers, providers: seq<string>, parts: seq<Part>)
    requires ValidParts(parts)
    ensures Expand(t, providers, Print(parts)) == Meaning(t, providers, parts)
  {
    if parts != [] {
      var rest := Print(parts[1..]);
      ExpandPrinted(t, providers, parts[1..]);
      match parts[0]
      case Literal(text) => ExpandEscaped(t, providers, text, rest);
      case Reference(name) => ExpandReference(t, providers, name, rest);
    }
  }

  /** In a printed template a `$` is followed by another one or by `{`, so it is never taken for `$name`. */
  lemma {:induction false} PrintedIsNotShorthand(parts: seq<Part>)
    requires ValidParts(parts)
    ensures !IsShorthand(Print(parts))
  {
    if parts != [] {
      var s := Print(parts);
      match parts[0]
      case Literal(text) =>
        if text == "" {
          PrintedIsNotShorthand(parts[1..]);
          assert s == Print(parts[1..]);
        } else if text[0] == '$' {
          assert s[1..][0] == '$';
        }
      case Reference(name) =>
        assert s[1..][0] == '{';
    }
  }

  /** Resolving a printed template gives what it means. Secrets are put in as they are: a `$` in one is never expanded again. */
  lemma ResolvePrinted(t: Providers, providers: seq<string>, parts: seq<Part>)
    requires ValidParts(parts)
    ensures Resolve(t, providers, Print(parts)) == Meaning(t, providers, parts)
  {
    PrintedIsNotShorthand(parts);
    ExpandPrinted(t, providers, parts);
    if !Contains(Print(parts), "${") && !Contains(Print(parts), "$$") {
      PlainText(t, providers, Print(parts));
    }
  }

  // ---------- names and single placeholders ----------

  /** Letters, digits and `_-./:#@`, by their character codes. */
  predicate IsNameCode(n: int) {
    97 <= n <= 122 || 65 <= n <= 90 || 48 <= n <= 57 || n in {95, 45, 46, 47, 58, 35, 64}
  }

  /** Names are made of those, and not empty. */
  lemma NamesExactlyWhen(n: string)
    ensures IsName(n) <==> |n| > 0 && forall i | 0 <= i < |n| :: IsNameCode(n[i] as int)
  {
    forall i | 0 <= i < |n| ensures NameChar(n[i]) <==> IsNameCode(n[i] as int) {
    }
  }

  /** `$name` and nothing else is the secret of that name, or the error of looking it up. */
  lemma ShorthandResolves(t: Providers, providers: seq<string>, name: string)
    requires IsName(name)
    ensures Resolve(t, providers, "$" + name) == ResolveName(t, providers, name)
  {
    assert ("$" + name)[1..] == name;
  }

  /** Anything else without `${` and `$$` is taken as it is. */
  lemma PlainResolves(t: Providers, providers: seq<string>, value: string)
    requires !Occurs(value, "${") && !Occurs(value, "$$") && (value == "" || value[0] != '$' || !IsName(value[1..]))
    ensures Resolve(t, providers, value) == Ok(value)
  {
    ContainsExactlyWhen(value, "${");
    ContainsExactlyWhen(value, "$$");
  }

  /** A `$` that starts no placeholder stands for itself; `$$` is one `$`. */
  lemma DollarsAre(t: Providers, providers: seq<string>, rest: string)
    ensures Expand(t, providers, "$$" + rest) == Prepend("$", Expand(t, providers, rest))
    ensures (rest == "" || (rest[0] != '$' && rest[0] != '{')) ==>
      Expand(t, providers, "$" + rest) == Prepend("$", Expand(t, providers, rest))
    ensures rest != "" && rest[0] == '{' && '}' !in rest ==>
      Expand(t, providers, "$" + rest) == Prepend("$", Expand(t, providers, rest))
  {
    assert ("$$" + rest)[2..] == rest && ("$" + rest)[1..] == rest;
    if rest != "" && rest[0] == '{' && '}' !in rest {
      NeverFound(rest[1..], '}');
    }
  }

  lemma {:induction false} NeverFound(s: string, c: char)
    requires c !in s
    ensures IndexOf(s, c) == |s|
  {
    if s != "" {
      NeverFound(s[1..], c);
    }
  }

  /** Without providers, or when none has the name, resolving fails and says why. */
  lemma FailuresSayWhy(t: Providers, p: string, name: string)
    ensures ResolveName(t, [], name) == Err("'$" + name + "' needs a --secret-provider")
    ensures Ask(t, p, name) == Absent ==> ResolveName(t, [p], name) == Err("secret '" + name + "' was not found")
  {
    assert [p][1..] == [];
    assert AskAll(t, [], name, []) == Err("secret '" + name + "' was not found");
  }

  /** With what the providers reported, in their order. */
  lemma FailuresAreJoined(t: Providers, p: string, q: string, name: string, e: string, f: string)
    requires Ask(t, p, name) == Failed(e) && Ask(t, q, name) == Failed(f)
    ensures ResolveName(t, [p, q], name) == Err("secret '" + name + "': " + (e + "; " + f))
  {
    assert [p, q][1..] == [q] && [q][1..] == [] && [e, f][1..] == [f];
    assert [] + [e] == [e] && [e] + [f] == [e, f];
    assert Join([f], "; ") == f;
    assert AskAll(t, [q], name, [e]) == AskAll(t, [], name, [e, f]);
  }

  /** Braces around something that is no name are left alone. */
  lemma BadBraces(t: Providers, providers: seq<string>, inner: string, rest: string)
    requires '}' !in inner && !IsName(inner)
    ensures Expand(t, providers, "${" + inner + "}" + rest) == Prepend("$", Expand(t, providers, "{" + inner + "}" + rest))
  {
    var s, body := "{" + inner + "}" + rest, inner + "}" + rest;
    assert ("${" + inner + "}" + rest)[1..] == s && s[1..] == body;
    IndexOfBehind(inner, '}', rest);
    assert body[..|inner|] == inner;
    assert Braced(s) == None;
  }
}
