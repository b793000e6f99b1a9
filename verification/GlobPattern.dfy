/** Glob patterns and what they mean: `*` and `?` stop at a slash, `**` crosses it, classes
    match one character, braces with a comma are literal alternatives, and an unclosed
    `[` or `{` is literal. Patterns and texts are sequences of characters. */
module GlobPattern {
  import opened Options

  // ----- Lexical structure -----

  predicate Escapable(c: char) { c in {'*', '?', '[', ']', '{', '}', '\\'} }

  /** From position `i` on: the first `]` that no backslash escapes, or -1. */
  function Close(p: string, i: nat): (j: int)
    ensures j == -1 || (i <= j < |p| && p[j] == ']')
    decreases |p| - i
  {
    if i >= |p| then -1
    else if p[i] == '\\' then Close(p, i + 2)
    else if p[i] == ']' then i
    else Close(p, i + 1)
  }

  /** The body of the class opened at `i` starts after one negation or caret character. */
  function BodyStart(p: string, i: nat): nat
  {
    if i + 1 < |p| && (p[i + 1] == '!' || p[i + 1] == '^') then i + 2 else i + 1
  }

  /** Where the class opened at `i` closes, or -1. */
  function ClassClose(p: string, i: nat): (j: int)
    ensures j == -1 || (i < j < |p| && p[j] == ']')
  {
    Close(p, BodyStart(p, i))
  }

  /** Alternatives read up to a closing brace, and the position after it. */
  datatype Braces = Braces(words: seq<string>, next: nat)

  function Prefixed(c: char, b: Option<Braces>): (r: Option<Braces>)
    requires b.Some? ==> |b.value.words| >= 1
    ensures r.Some? ==> |r.value.words| >= 1
  {
    if b.None? then None else Some(b.value.(words := [[c] + b.value.words[0]] + b.value.words[1..]))
  }

  /** From inside the braces: commas separate, a backslash makes the next character literal. */
  function ReadBraces(p: string, i: nat): (r: Option<Braces>)
    ensures r.Some? ==> |r.value.words| >= 1 && i < r.value.next <= |p| && p[r.value.next - 1] == '}'
    decreases |p| - i
  {
    if i >= |p| then None
    else if p[i] == '}' then Some(Braces([""], i + 1))
    else if p[i] == ',' then
      var rest := ReadBraces(p, i + 1);
      if rest.None? then None else Some(rest.value.(words := [""] + rest.value.words))
    else if p[i] == '\\' && i + 1 < |p| then Prefixed(p[i + 1], ReadBraces(p, i + 2))
    else Prefixed(p[i], ReadBraces(p, i + 1))
  }

  datatype Token =
    | DoubleStar
    | Star
    | AnyChar
    | Class(inner: string)
    | Group(words: seq<string>)
    | Literal(c: char)

  /** The token at position `i` and the position after it. */
  function Head(p: string, i: nat): (r: (Token, nat))
    requires i < |p|
    ensures i < r.1 <= |p|
  {
    if p[i] == '*' then if i + 1 < |p| && p[i + 1] == '*' then (DoubleStar, i + 2) else (Star, i + 1)
    else if p[i] == '?' then (AnyChar, i + 1)
    else if p[i] == '[' then
      var j := ClassClose(p, i);
      if j >= 0 then (Class(p[i + 1..j]), j + 1) else (Literal('['), i + 1)
    else if p[i] == '{' then
      var b := ReadBraces(p, i + 1);
      if b.Some? && |b.value.words| >= 2 then (Group(b.value.words), b.value.next) else (Literal('{'), i + 1)
    else if p[i] == '\\' && i + 1 < |p| && Escapable(p[i + 1]) then (Literal(p[i + 1]), i + 2)
    else (Literal(p[i]), i + 1)
  }

  function TokensFrom(p: string, i: nat): seq<Token>
    requires i <= |p|
    decreases |p| - i
  {
    if i == |p| then [] else [Head(p, i).0] + TokensFrom(p, Head(p, i).1)
  }

  function Tokens(p: string): seq<Token> { TokensFrom(p, 0) }

  // ----- Classes -----

  /** The first member of a class body: a character, or an escaped one. */
  function Member(body: string): (r: (char, nat))
    requires body != ""
    ensures 1 <= r.1 <= |body|
  {
    if body[0] == '\\' && |body| > 1 then (body[1], 2) else (body[0], 1)
  }

  /** `c` is listed in the body, or lies in one of its ranges. */
  predicate Listed(body: string, c: char)
    decreases |body|
  {
    if body == "" then false
    else
      var (lo, n) := Member(body);
      var rest := body[n..];
      if |rest| >= 2 && rest[0] == '-' then
        var (hi, m) := Member(rest[1..]);
        lo <= c <= hi || Listed(rest[1 + m..], c)
      else c == lo || Listed(rest, c)
  }

  /** A leading `!` negates; a leading `^` is an ordinary member. */
  predicate ClassAccepts(inner: string, c: char)
  {
    if inner != "" && inner[0] == '!' then !Listed(inner[1..], c) else Listed(inner, c)
  }

  // ----- Matching -----

  predicate NoSlash(t: string, i: nat, k: nat)
    requires i <= k <= |t|
  {
    forall j :: i <= j < k ==> t[j] != '/'
  }

  /** The token matches the text from `i` up to `k`. */
  predicate Spans(tok: Token, t: string, i: nat, k: nat)
    requires i <= k <= |t|
  {
    match tok
    case DoubleStar => true
    case Star => NoSlash(t, i, k)
    case AnyChar => k == i + 1 && t[i] != '/'
    case Class(inner) => k == i + 1 && ClassAccepts(inner, t[i])
    case Group(words) => t[i..k] in words
    case Literal(c) => k == i + 1 && t[i] == c
  }

  /** The tokens match the text from position `i` to its end. */
  ghost predicate MatchesFrom(ts: seq<Token>, t: string, i: nat)
    requires i <= |t|
    decreases |ts|
  {
    if ts == [] then i == |t|
    else exists k :: i <= k <= |t| && Spans(ts[0], t, i, k) && MatchesFrom(ts[1..], t, k)
  }

  ghost predicate GlobMatches(p: string, t: string) { MatchesFrom(Tokens(p), t, 0) }
}
