/** The part of Go's regular-expression syntax that compiled globs use, as text: literals,
    backslash escapes of punctuation, control characters and Perl classes, `.`, bracket
    classes, star, `(?:a|b)` groups of literals, anchors and top-level alternation. Anything
    else is outside the model (`None`), as is any text Go rejects. The dot does not match a newline; a negated class does. */
module GoRegexp {
  import opened Options

  datatype CharSet = NotNewline | OneOf(negated: bool, ranges: seq<(char, char)>)

  datatype Piece =
    | Begin
    | End
    | Single(set1: CharSet)
    | Many(set1: CharSet)
    | Words(words: seq<string>)

  // ----- Syntax -----

  /** Characters with a special meaning outside classes: what QuoteMeta escapes. */
  predicate Meta(c: char) { c in {'\\', '.', '+', '*', '?', '(', ')', '|', '[', ']', '{', '}', '^', '$'} }

  /** Those of them that cannot stand for themselves: a lone closing bracket or brace can. */
  predicate Operator(c: char) { Meta(c) && c != ']' && c != '}' }

  /** ASCII punctuation, which a backslash makes literal. */
  predicate Punctuation(c: char)
  {
    '!' <= c <= '/' || ':' <= c <= '@' || '[' <= c <= '`' || '{' <= c <= '~'
  }

  /** The control character that a backslash and this letter stand for. */
  function Control(c: char): Option<char>
  {
    match c
    case 'a' => Some(7 as char)
    case 't' => Some(9 as char)
    case 'n' => Some(10 as char)
    case 'v' => Some(11 as char)
    case 'f' => Some(12 as char)
    case 'r' => Some(13 as char)
    case _ => None
  }

  const LAST_CHAR: char := 0x10FFFF as char

  /** The set that a backslash and this letter stand for. */
  function Perl(c: char): Option<seq<(char, char)>>
  {
    match c
    case 'd' => Some([('0', '9')])
    case 'D' => Some([(0 as char, '/'), (':', LAST_CHAR)])
    case 's' => Some([(9 as char, 10 as char), (12 as char, 13 as char), (' ', ' ')])
    case 'S' => Some([(0 as char, 8 as char), (11 as char, 11 as char), (14 as char, 31 as char), ('!', LAST_CHAR)])
    case 'w' => Some([('0', '9'), ('A', 'Z'), ('_', '_'), ('a', 'z')])
    case 'W' => Some([(0 as char, '/'), (':', '@'), ('[', '^'), ('`', '`'), ('{', LAST_CHAR)])
    case _ => None
  }

  /** The character that a backslash and `c` stand for. */
  function Escape(c: char): Option<char> { if Punctuation(c) then Some(c) else Control(c) }

  predicate Quantifier(c: char) { c in {'*', '+', '?', '{'} }

  function Literal(c: char): CharSet { OneOf(false, [(c, c)]) }

  /** One member of a class: a character or an escaped one. */
  function ClassChar(s: string): (r: Option<(char, string)>)
    ensures r.Some? ==> |r.value.1| < |s|
  {
    if s == "" then None
    else if s[0] == '\\' then
      if |s| > 1 && Escape(s[1]).Some? then Some((Escape(s[1]).value, s[2..])) else None
    else Some((s[0], s[1..]))
  }

  /** The members of a class up to its closing bracket, which is literal in first position. */
  function ClassItems(s: string, first: bool): (r: Option<(seq<(char, char)>, string)>)
    ensures r.Some? ==> |r.value.1| < |s|
    decreases |s|
  {
    if s == "" then None
    else if s[0] == ']' && !first then Some(([], s[1..]))
    else if |s| > 2 && s[0] == '[' && s[1] == ':' then None
    else if |s| > 1 && s[0] == '\\' && Perl(s[1]).Some? then
      var more := ClassItems(s[2..], false);
      if more.None? then None else Some((Perl(s[1]).value + more.value.0, more.value.1))
    else
      var lo := ClassChar(s);
      if lo.None? then None
      else
        var rest := lo.value.1;
        if |rest| >= 2 && rest[0] == '-' && rest[1] != ']' then
          var hi := ClassChar(rest[1..]);
          if hi.None? || hi.value.0 < lo.value.0 then None
          else
            var more := ClassItems(hi.value.1, false);
            if more.None? then None
            else Some(([(lo.value.0, hi.value.0)] + more.value.0, more.value.1))
        else
          var more := ClassItems(rest, false);
          if more.None? then None
          else Some(([(lo.value.0, lo.value.0)] + more.value.0, more.value.1))
  }

  /** The text after an opening bracket. */
  function ParseClass(s: string): (r: Option<(CharSet, string)>)
    ensures r.Some? ==> |r.value.1| < |s|
  {
    var negated := s != "" && s[0] == '^';
    var items := ClassItems(if negated then s[1..] else s, true);
    if items.None? then None else Some((OneOf(negated, items.value.0), items.value.1))
  }

  function AddChar(c: char, r: Option<(seq<string>, string)>): (q: Option<(seq<string>, string)>)
    requires r.Some? ==> |r.value.0| >= 1
    ensures q.Some? ==> r.Some? && |q.value.0| >= 1 && q.value.1 == r.value.1
  {
    if r.None? then None else Some(([[c] + r.value.0[0]] + r.value.0[1..], r.value.1))
  }

  /** Literal alternatives up to a closing parenthesis. */
  function ParseWords(s: string): (r: Option<(seq<string>, string)>)
    ensures r.Some? ==> |r.value.0| >= 1 && |r.value.1| < |s|
    decreases |s|
  {
    if s == "" then None
    else if s[0] == ')' then Some(([""], s[1..]))
    else if s[0] == '|' then
      var rest := ParseWords(s[1..]);
      if rest.None? then None else Some(([""] + rest.value.0, rest.value.1))
    else if s[0] == '\\' then
      if |s| > 1 && Punctuation(s[1]) then AddChar(s[1], ParseWords(s[2..])) else None
    else if Operator(s[0]) then None
    else AddChar(s[0], ParseWords(s[1..]))
  }

  /** One character's worth of syntax: a set, before any quantifier. */
  function ParseSet(s: string): (r: Option<(CharSet, string)>)
    requires s != ""
    ensures r.Some? ==> |r.value.1| < |s|
  {
    if s[0] == '.' then Some((NotNewline, s[1..]))
    else if s[0] == '[' then ParseClass(s[1..])
    else if s[0] == '\\' then
      if |s| == 1 then None
      else if Perl(s[1]).Some? then Some((OneOf(false, Perl(s[1]).value), s[2..]))
      else if Escape(s[1]).Some? then Some((Literal(Escape(s[1]).value), s[2..]))
      else None
    else if Operator(s[0]) then None
    else Some((Literal(s[0]), s[1..]))
  }

  predicate StartsQuantifier(s: string) { s != "" && Quantifier(s[0]) }

  function NextPiece(s: string): (r: Option<(Piece, string)>)
    requires s != ""
    ensures r.Some? ==> |r.value.1| < |s|
  {
    if s[0] == '^' then if StartsQuantifier(s[1..]) then None else Some((Begin, s[1..]))
    else if s[0] == '$' then if StartsQuantifier(s[1..]) then None else Some((End, s[1..]))
    else if s[0] == '(' then
      if |s| >= 3 && s[1] == '?' && s[2] == ':' then
        var w := ParseWords(s[3..]);
        if w.None? || StartsQuantifier(w.value.1) then None else Some((Words(w.value.0), w.value.1))
      else None
    else
      var c := ParseSet(s);
      if c.None? then None
      else
        var rest := c.value.1;
        if !StartsQuantifier(rest) then Some((Single(c.value.0), rest))
        else if rest[0] == '*' && !StartsQuantifier(rest[1..]) then Some((Many(c.value.0), rest[1..]))
        else None
  }

  /** The alternatives of a regular expression, each a sequence of pieces. */
  function Parse(s: string): (r: Option<seq<seq<Piece>>>)
    ensures r.Some? ==> |r.value| >= 1
    decreases |s|
  {
    if s == "" then Some([[]])
    else if s[0] == '|' then
      var rest := Parse(s[1..]);
      if rest.None? then None else Some([[]] + rest.value)
    else
      var piece := NextPiece(s);
      if piece.None? then None
      else
        var rest := Parse(piece.value.1);
        if rest.None? then None
        else Some([[piece.value.0] + rest.value[0]] + rest.value[1..])
  }

  // ----- Semantics -----

  predicate InRanges(ranges: seq<(char, char)>, c: char)
  {
    exists k :: 0 <= k < |ranges| && ranges[k].0 <= c <= ranges[k].1
  }

  predicate Accepts(s: CharSet, c: char)
  {
    match s
    case NotNewline => c != '\n'
    case OneOf(negated, ranges) => if negated then !InRanges(ranges, c) else InRanges(ranges, c)
  }

  predicate AllAccepted(s: CharSet, t: string, i: nat, k: nat)
    requires i <= k <= |t|
  {
    forall j :: i <= j < k ==> Accepts(s, t[j])
  }

  /** The piece matches the text from `i` up to `k`. */
  predicate Spans(piece: Piece, t: string, i: nat, k: nat)
    requires i <= k <= |t|
  {
    match piece
    case Begin => k == i == 0
    case End => k == i == |t|
    case Single(s) => k == i + 1 && Accepts(s, t[i])
    case Many(s) => AllAccepted(s, t, i, k)
    case Words(words) => t[i..k] in words
  }

  /** The pieces match some stretch of the text that starts at `i`. */
  ghost predicate MatchesAt(ps: seq<Piece>, t: string, i: nat)
    requires i <= |t|
    decreases |ps|
  {
    ps == [] || exists k :: i <= k <= |t| && Spans(ps[0], t, i, k) && MatchesAt(ps[1..], t, k)
  }

  /** MatchString: some alternative matches somewhere in the text. */
  ghost predicate MatchString(regex: string, t: string)
  {
    && Parse(regex).Some?
    && exists b, i :: 0 <= b < |Parse(regex).value| && 0 <= i <= |t| && MatchesAt(Parse(regex).value[b], t, i)
  }
}
