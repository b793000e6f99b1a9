/** What a pattern text matches, said of the text itself: one law for each way a pattern can
    begin. Together they determine the meaning of every pattern. */
module GlobLaws {
  import opened Options
  import opened Strings
  import opened GlobPattern

  // ----- Reading a pattern does not depend on what stands before -----

  lemma {:induction false} CloseShifts(x: string, p: string, i: nat)
    ensures Close(x + p, |x| + i) == if Close(p, i) < 0 then -1 else |x| + Close(p, i)
    decreases |p| - i
  {
    if i < |p| {
      assert (x + p)[|x| + i] == p[i];
      CloseShifts(x, p, i + 1);
      CloseShifts(x, p, i + 2);
    }
  }

  function Shifted(b: Option<Braces>, n: nat): Option<Braces>
  {
    if b.None? then None else Some(b.value.(next := b.value.next + n))
  }

  lemma PrefixedShifts(c: char, b: Option<Braces>, n: nat)
    requires b.Some? ==> |b.value.words| >= 1
    ensures Prefixed(c, Shifted(b, n)) == Shifted(Prefixed(c, b), n)
  {
  }

  lemma BracesPlain(p: string, i: nat)
    requires i < |p| && p[i] !in {'}', ','} && !(p[i] == '\\' && i + 1 < |p|)
    ensures ReadBraces(p, i) == Prefixed(p[i], ReadBraces(p, i + 1))
  {
  }

  lemma BracesEscape(p: string, i: nat)
    requires i + 1 < |p| && p[i] == '\\'
    ensures ReadBraces(p, i) == Prefixed(p[i + 1], ReadBraces(p, i + 2))
  {
  }

  lemma EscapeShifts(x: string, p: string, i: nat)
    requires i + 1 < |p| && p[i] == '\\' && ReadBraces(x + p, |x| + i + 2) == Shifted(ReadBraces(p, i + 2), |x|)
    ensures ReadBraces(x + p, |x| + i) == Shifted(ReadBraces(p, i), |x|)
  {
    var s, k := x + p, |x| + i;
    assert s[k] == p[i] && s[k + 1] == p[i + 1];
    BracesEscape(p, i);
    BracesEscape(s, k);
    PrefixedShifts(p[i + 1], ReadBraces(p, i + 2), |x|);
  }

  lemma CommaShifts(x: string, p: string, i: nat)
    requires i < |p| && p[i] == ',' && ReadBraces(x + p, |x| + i + 1) == Shifted(ReadBraces(p, i + 1), |x|)
    ensures ReadBraces(x + p, |x| + i) == Shifted(ReadBraces(p, i), |x|)
  {
    assert (x + p)[|x| + i] == p[i];
  }

  lemma PlainShifts(x: string, p: string, i: nat)
    requires i < |p| && p[i] !in {'}', ','} && !(p[i] == '\\' && i + 1 < |p|)
    requires ReadBraces(x + p, |x| + i + 1) == Shifted(ReadBraces(p, i + 1), |x|)
    ensures ReadBraces(x + p, |x| + i) == Shifted(ReadBraces(p, i), |x|)
  {
    var s, k := x + p, |x| + i;
    assert s[k] == p[i] && |s| == |x| + |p|;
    BracesPlain(p, i);
    BracesPlain(s, k);
    PrefixedShifts(p[i], ReadBraces(p, i + 1), |x|);
  }

  lemma {:induction false} BracesShift(x: string, p: string, i: nat)
    ensures ReadBraces(x + p, |x| + i) == Shifted(ReadBraces(p, i), |x|)
    decreases |p| - i
  {
    if i < |p| && p[i] == '\\' && i + 1 < |p| {
      BracesShift(x, p, i + 2);
      EscapeShifts(x, p, i);
    } else if i < |p| && p[i] == ',' {
      BracesShift(x, p, i + 1);
      CommaShifts(x, p, i);
    } else if i < |p| && p[i] != '}' {
      BracesShift(x, p, i + 1);
      PlainShifts(x, p, i);
    } else if i < |p| {
      assert (x + p)[|x| + i] == p[i];
    }
  }

  lemma ClassShifts(x: string, p: string, i: nat)
    requires i < |p|
    ensures ClassClose(x + p, |x| + i) == if ClassClose(p, i) < 0 then -1 else |x| + ClassClose(p, i)
  {
    if i + 1 < |p| { assert (x + p)[|x| + (i + 1)] == p[i + 1]; }
    CloseShifts(x, p, BodyStart(p, i));
  }

  lemma ClassHeadShifts(x: string, p: string, i: nat)
    requires i < |p| && p[i] == '['
    ensures Head(x + p, |x| + i) == (Head(p, i).0, |x| + Head(p, i).1)
  {
    assert (x + p)[|x| + i] == p[i];
    ClassShifts(x, p, i);
    var j := ClassClose(p, i);
    if j >= 0 { assert (x + p)[|x| + i + 1..|x| + j] == p[i + 1..j]; }
  }

  lemma GroupHeadShifts(x: string, p: string, i: nat)
    requires i < |p| && p[i] == '{'
    ensures Head(x + p, |x| + i) == (Head(p, i).0, |x| + Head(p, i).1)
  {
    assert (x + p)[|x| + i] == p[i];
    BracesShift(x, p, i + 1);
  }

  lemma HeadShifts(x: string, p: string, i: nat)
    requires i < |p|
    ensures Head(x + p, |x| + i) == (Head(p, i).0, |x| + Head(p, i).1)
  {
    if p[i] == '[' {
      ClassHeadShifts(x, p, i);
    } else if p[i] == '{' {
      GroupHeadShifts(x, p, i);
    } else {
      assert (x + p)[|x| + i] == p[i];
      if i + 1 < |p| { assert (x + p)[|x| + (i + 1)] == p[i + 1]; }
    }
  }

  lemma TokensStep(p: string, i: nat, tok: Token, n: nat)
    requires i < |p| && Head(p, i) == (tok, n)
    ensures i < n <= |p| && TokensFrom(p, i) == [tok] + TokensFrom(p, n)
  {
  }

  lemma {:induction false} TokensShift(x: string, p: string, i: nat)
    requires i <= |p|
    ensures TokensFrom(x + p, |x| + i) == TokensFrom(p, i)
    decreases |p| - i
  {
    if i < |p| {
      var (tok, n) := Head(p, i);
      HeadShifts(x, p, i);
      TokensStep(p, i, tok, n);
      TokensStep(x + p, |x| + i, tok, |x| + n);
      TokensShift(x, p, n);
    }
  }

  lemma SpansShift(tok: Token, t: string, n: nat, i: nat, k: nat)
    requires n + i <= n + k <= |t|
    ensures Spans(tok, t, n + i, n + k) <==> Spans(tok, t[n..], i, k)
  {
    assert t[n..][i..k] == t[n + i..n + k];
    assert forall j :: i <= j < k ==> t[n..][j] == t[n + j];
    assert forall j :: n + i <= j < n + k ==> t[j] == t[n..][j - n];
  }

  lemma {:induction false} MatchShifts(ts: seq<Token>, t: string, n: nat, i: nat)
    requires n + i <= |t|
    ensures MatchesFrom(ts, t, n + i) <==> MatchesFrom(ts, t[n..], i)
    decreases |ts|
  {
    if ts != [] {
      if k :| n + i <= k <= |t| && Spans(ts[0], t, n + i, k) && MatchesFrom(ts[1..], t, k) {
        SpansShift(ts[0], t, n, i, k - n);
        MatchShifts(ts[1..], t, n, k - n);
      }
      if k :| i <= k <= |t[n..]| && Spans(ts[0], t[n..], i, k) && MatchesFrom(ts[1..], t[n..], k) {
        SpansShift(ts[0], t, n, i, k);
        MatchShifts(ts[1..], t, n, k);
      }
    }
  }

  /** A pattern whose first token is spelled by `x` matches what the token matches, followed by
      what the rest matches. */
  ghost predicate Splits(tok: Token, p: string, t: string)
  {
    exists k :: 0 <= k <= |t| && Spans(tok, t, 0, k) && GlobMatches(p, t[k..])
  }

  lemma FirstToken(x: string, p: string, tok: Token, t: string)
    requires x != "" && Head(x + p, 0) == (tok, |x|)
    ensures GlobMatches(x + p, t) <==> Splits(tok, p, t)
  {
    var ts := TokensFrom(x + p, |x|);
    TokensShift(x, p, 0);
    assert Tokens(x + p) == [tok] + ts && ([tok] + ts)[1..] == ts && ts == Tokens(p);
    if k :| 0 <= k <= |t| && Spans(tok, t, 0, k) && MatchesFrom(ts, t, k) {
      MatchShifts(ts, t, k, 0);
    }
    if k :| 0 <= k <= |t| && Spans(tok, t, 0, k) && GlobMatches(p, t[k..]) {
      MatchShifts(ts, t, k, 0);
    }
  }

  /** Tokens that take exactly one character. */
  lemma FirstCharacter(x: string, p: string, tok: Token, t: string)
    requires x != "" && Head(x + p, 0) == (tok, |x|) && (tok.AnyChar? || tok.Class? || tok.Literal?)
    ensures GlobMatches(x + p, t) <==> t != "" && Spans(tok, t, 0, 1) && GlobMatches(p, t[1..])
  {
    FirstToken(x, p, tok, t);
  }

  // ----- The laws -----

  /** The empty pattern matches the empty text only. */
  lemma EmptyLaw(t: string)
    ensures GlobMatches("", t) <==> t == ""
  {
  }

  /** A single star matches any text without a slash. */
  lemma StarLaw(p: string, t: string)
    requires !(p != "" && p[0] == '*')
    ensures GlobMatches("*" + p, t) <==> exists k :: 0 <= k <= |t| && '/' !in t[..k] && GlobMatches(p, t[k..])
  {
    assert Head("*" + p, 0) == (Star, 1);
    FirstToken("*", p, Star, t);
    forall k | 0 <= k <= |t| ensures Spans(Star, t, 0, k) <==> '/' !in t[..k] {
      assert forall j :: 0 <= j < k ==> t[j] == t[..k][j];
    }
  }

  /** A double star matches any text. */
  lemma DoubleStarLaw(p: string, t: string)
    ensures GlobMatches("**" + p, t) <==> exists k :: 0 <= k <= |t| && GlobMatches(p, t[k..])
  {
    assert Head("**" + p, 0) == (DoubleStar, 2);
    FirstToken("**", p, DoubleStar, t);
    forall k | 0 <= k <= |t| && GlobMatches(p, t[k..]) ensures Spans(DoubleStar, t, 0, k) {
    }
  }

  /** A question mark matches one character that is no slash. */
  lemma QuestionLaw(p: string, t: string)
    ensures GlobMatches("?" + p, t) <==> t != "" && t[0] != '/' && GlobMatches(p, t[1..])
  {
    assert Head("?" + p, 0) == (AnyChar, 1);
    FirstCharacter("?", p, AnyChar, t);
  }

  /** An ordinary character matches itself. */
  lemma PlainLaw(c: char, p: string, t: string)
    requires c !in {'*', '?', '[', '{', '\\'}
    ensures GlobMatches([c] + p, t) <==> t != "" && t[0] == c && GlobMatches(p, t[1..])
  {
    assert Head([c] + p, 0) == (Literal(c), 1);
    FirstCharacter([c], p, Literal(c), t);
  }

  /** A backslash before one of seven characters makes it match itself. */
  lemma EscapeLaw(c: char, p: string, t: string)
    requires c in {'*', '?', '[', ']', '{', '}', '\\'}
    ensures GlobMatches(['\\', c] + p, t) <==> t != "" && t[0] == c && GlobMatches(p, t[1..])
  {
    assert Head(['\\', c] + p, 0) == (Literal(c), 2);
    FirstCharacter(['\\', c], p, Literal(c), t);
  }

  /** Before any other character, and at the end, a backslash matches itself. */
  lemma BackslashLaw(p: string, t: string)
    requires p == "" || p[0] !in {'*', '?', '[', ']', '{', '}', '\\'}
    ensures GlobMatches("\\" + p, t) <==> t != "" && t[0] == '\\' && GlobMatches(p, t[1..])
  {
    assert Head("\\" + p, 0) == (Literal('\\'), 1);
    FirstCharacter("\\", p, Literal('\\'), t);
  }

  // ----- Classes -----

  /** No bracket closes before the end: every `]` follows a backslash that escapes it. */
  predicate Sealed(inner: string)
    decreases |inner|
  {
    inner == ""
    || (if inner[0] == '\\' then |inner| >= 2 && Sealed(inner[2..]) else inner[0] != ']' && Sealed(inner[1..]))
  }

  lemma {:induction false} SealedCloses(inner: string, q: string)
    requires Sealed(inner)
    ensures Close(inner + ("]" + q), 0) == |inner|
    decreases |inner|
  {
    var s := inner + ("]" + q);
    if inner != "" {
      var n := if inner[0] == '\\' then 2 else 1;
      SealedCloses(inner[n..], q);
      assert s == inner[..n] + (inner[n..] + ("]" + q));
      CloseShifts(inner[..n], inner[n..] + ("]" + q), 0);
    }
  }

  lemma {:induction false} CloseSealed(p: string, i: nat)
    requires i <= |p| && Close(p, i) >= 0
    ensures Sealed(p[i..Close(p, i)])
    decreases |p| - i
  {
    var j := Close(p, i);
    var inner := p[i..j];
    if i < j {
      var n := if p[i] == '\\' then 2 else 1;
      CloseSealed(p, i + n);
      assert inner[n..] == p[i + n..j];
    }
  }

  /** Whether or not one negation or caret is skipped. */
  lemma OpenedClass(p: string)
    ensures ClassClose("[" + p, 0) == if Close(p, 0) < 0 then -1 else 1 + Close(p, 0)
  {
    CloseShifts("[", p, 0);
    CloseShifts("[", p, 1);
    assert p != "" ==> ("[" + p)[1] == p[0];
  }

  lemma ClassHead(inner: string, q: string)
    requires Sealed(inner)
    ensures Head("[" + inner + "]" + q, 0) == (Class(inner), |"[" + inner + "]"|)
  {
    var p := inner + ("]" + q);
    SealedCloses(inner, q);
    OpenedClass(p);
    ClassText(inner, q);
  }

  lemma ClassText(inner: string, q: string)
    ensures "[" + inner + "]" + q == "[" + (inner + ("]" + q))
    ensures ("[" + (inner + ("]" + q)))[1..1 + |inner|] == inner
  {
  }

  /** A class matches one listed character. */
  lemma ClassLaw(inner: string, q: string, t: string)
    requires Sealed(inner) && (inner == "" || inner[0] != '!')
    ensures GlobMatches("[" + inner + "]" + q, t) <==> t != "" && Listed(inner, t[0]) && GlobMatches(q, t[1..])
  {
    ClassHead(inner, q);
    FirstCharacter("[" + inner + "]", q, Class(inner), t);
  }

  /** An exclamation mark in first position negates it. */
  lemma NegatedClassLaw(body: string, q: string, t: string)
    requires Sealed(body)
    ensures GlobMatches("[!" + body + "]" + q, t) <==> t != "" && !Listed(body, t[0]) && GlobMatches(q, t[1..])
  {
    var inner := "!" + body;
    assert inner[1..] == body && "[" + inner + "]" + q == "[!" + body + "]" + q;
    ClassHead(inner, q);
    FirstCharacter("[" + inner + "]", q, Class(inner), t);
  }

  predicate ClosesClass(p: string, inner: string, q: string) { Sealed(inner) && p == inner + ("]" + q) }

  lemma NothingCloses(p: string)
    ensures Close(p, 0) >= 0 ==> exists inner, q :: ClosesClass(p, inner, q)
  {
    if Close(p, 0) >= 0 {
      var j := Close(p, 0);
      CloseSealed(p, 0);
      assert p == p[0..j] + ("]" + p[j + 1..]);
      assert ClosesClass(p, p[0..j], p[j + 1..]);
    }
  }

  /** An opening bracket that nothing closes matches itself. */
  lemma UnclosedClassLaw(p: string, t: string)
    requires !exists inner, q :: ClosesClass(p, inner, q)
    ensures GlobMatches("[" + p, t) <==> t != "" && t[0] == '[' && GlobMatches(p, t[1..])
  {
    NothingCloses(p);
    OpenedClass(p);
    assert ("[" + p)[0] == '[' && Head("[" + p, 0) == (Literal('['), 1);
    FirstCharacter("[", p, Literal('['), t);
  }

  /** Nothing is listed in an empty body. */
  lemma ListedEmpty(c: char)
    ensures !Listed("", c)
  {
  }

  /** A member of a class, escaped or not. */
  function Spell(c: char, escaped: bool): string { if escaped then ['\\', c] else [c] }

  lemma SpelledMember(c: char, escaped: bool, rest: string)
    requires escaped || c != '\\'
    ensures Member(Spell(c, escaped) + rest) == (c, |Spell(c, escaped)|)
    ensures (Spell(c, escaped) + rest)[|Spell(c, escaped)|..] == rest
  {
  }

  /** A character, escaped or not, lists itself, unless a dash and another member follow. */
  lemma ListedCharacter(x: char, escaped: bool, rest: string, c: char)
    requires escaped || x != '\\'
    requires !(|rest| >= 2 && rest[0] == '-')
    ensures Listed(Spell(x, escaped) + rest, c) <==> c == x || Listed(rest, c)
  {
    SpelledMember(x, escaped, rest);
  }

  /** Two characters, escaped or not, with a plain dash between them list everything from one to the other. */
  lemma ListedRange(lo: char, loEscaped: bool, hi: char, hiEscaped: bool, rest: string, c: char)
    requires (loEscaped || lo != '\\') && (hiEscaped || hi != '\\')
    ensures Listed(Spell(lo, loEscaped) + ("-" + (Spell(hi, hiEscaped) + rest)), c) <==> lo <= c <= hi || Listed(rest, c)
  {
    var last := Spell(hi, hiEscaped) + rest;
    var tail := "-" + last;
    SpelledMember(lo, loEscaped, tail);
    SpelledMember(hi, hiEscaped, rest);
    assert tail[1..] == last;
    RangeListed(Spell(lo, loEscaped) + tail, tail, last, lo, hi, rest, c);
  }

  lemma RangeListed(body: string, tail: string, last: string, lo: char, hi: char, rest: string, c: char)
    requires body != "" && Member(body).0 == lo && body[Member(body).1..] == tail
    requires |tail| >= 2 && tail[0] == '-' && tail[1..] == last && Member(last).0 == hi && last[Member(last).1..] == rest
    ensures Listed(body, c) <==> lo <= c <= hi || Listed(rest, c)
  {
    assert tail[1 + Member(last).1..] == tail[1..][Member(last).1..];
  }

  // ----- Brace groups -----

  /** A word of a group, each character escaped or not. */
  type Spelling = seq<(char, bool)>

  /** Commas, braces and backslashes stand for themselves only if escaped. */
  predicate WellSpelled(w: Spelling) { forall i :: 0 <= i < |w| && !w[i].1 ==> w[i].0 !in {',', '}', '\\'} }

  function WordText(w: Spelling): string { if w == [] then "" else Spell(w[0].0, w[0].1) + WordText(w[1..]) }

  function Word(w: Spelling): (r: string)
    ensures |r| == |w| && forall i :: 0 <= i < |w| ==> r[i] == w[i].0
  {
    seq(|w|, i requires 0 <= i < |w| => w[i].0)
  }

  function WordsText(ws: seq<Spelling>): string
    requires ws != []
  {
    if |ws| == 1 then WordText(ws[0]) else WordText(ws[0]) + ("," + WordsText(ws[1..]))
  }

  predicate AllWellSpelled(ws: seq<Spelling>) { forall i :: 0 <= i < |ws| ==> WellSpelled(ws[i]) }

  function Words(ws: seq<Spelling>): (r: seq<string>)
    ensures |r| == |ws| && forall i :: 0 <= i < |ws| ==> r[i] == Word(ws[i])
  {
    seq(|ws|, i requires 0 <= i < |ws| => Word(ws[i]))
  }

  lemma CharacterRead(c: char, escaped: bool, tail: string)
    requires (escaped || c !in {',', '}', '\\'}) && ReadBraces(tail, 0).Some?
    ensures ReadBraces(Spell(c, escaped) + tail, 0) == Shifted(Prefixed(c, ReadBraces(tail, 0)), |Spell(c, escaped)|)
  {
    var x := Spell(c, escaped);
    BracesShift(x, tail, 0);
    assert (x + tail)[0] == x[0];
    if escaped { assert (x + tail)[1] == c; }
    PrefixedShifts(c, ReadBraces(tail, 0), |x|);
  }

  /** The group `b`, `n` characters later, with `w` in front of its first word. */
  function WithWord(w: string, b: Braces, n: nat): Braces
    requires b.words != []
  {
    Braces([w + b.words[0]] + b.words[1..], n + b.next)
  }

  lemma WithCharacter(c: char, w: string, b: Braces, n: nat, m: nat)
    requires b.words != []
    ensures Shifted(Prefixed(c, Some(WithWord(w, b, n))), m) == Some(WithWord([c] + w, b, m + n))
  {
    Assoc([c], w, b.words[0]);
  }

  lemma WithNothing(b: Braces)
    requires b.words != []
    ensures WithWord("", b, 0) == b
  {
    assert "" + b.words[0] == b.words[0] && [b.words[0]] + b.words[1..] == b.words;
  }

  lemma {:induction false} WordRead(w: Spelling, tail: string, b: Braces)
    requires WellSpelled(w) && b.words != [] && ReadBraces(tail, 0) == Some(b)
    ensures ReadBraces(WordText(w) + tail, 0) == Some(WithWord(Word(w), b, |WordText(w)|))
    decreases |w|
  {
    if w == [] {
      WithNothing(b);
      assert WordText(w) + tail == tail && Word(w) == "";
    } else {
      WordRead(w[1..], tail, b);
      CharacterAhead(w[0].0, w[0].1, WordText(w[1..]), tail, Word(w[1..]), b);
      assert [w[0].0] + Word(w[1..]) == Word(w);
    }
  }

  lemma CharacterAhead(c: char, escaped: bool, text: string, tail: string, w: string, b: Braces)
    requires (escaped || c !in {',', '}', '\\'}) && b.words != []
    requires ReadBraces(text + tail, 0) == Some(WithWord(w, b, |text|))
    ensures ReadBraces(Spell(c, escaped) + text + tail, 0) == Some(WithWord([c] + w, b, |Spell(c, escaped) + text|))
  {
    var x := Spell(c, escaped);
    Assoc(x, text, tail);
    CharacterRead(c, escaped, text + tail);
    WithCharacter(c, w, b, |text|, |x|);
  }

  lemma CommaRead(more: string, b: Braces)
    requires ReadBraces(more, 0) == Some(b)
    ensures ReadBraces("," + more, 0) == Some(Braces([""] + b.words, 1 + b.next))
  {
    BracesShift(",", more, 0);
    assert ("," + more)[0] == ',';
  }

  lemma CloseRead(q: string)
    ensures ReadBraces("}" + q, 0) == Some(Braces([""], 1))
  {
    assert ("}" + q)[0] == '}';
  }

  lemma FirstWord(w: string, rest: seq<string>, n: nat, m: nat)
    ensures WithWord(w, Braces([""] + rest, m), n) == Braces([w] + rest, n + m)
  {
    assert w + "" == w && ([""] + rest)[1..] == rest;
  }

  lemma LastRead(w: Spelling, q: string)
    requires WellSpelled(w)
    ensures ReadBraces(WordText(w) + ("}" + q), 0) == Some(Braces([Word(w)], |WordText(w)| + 1))
  {
    CloseRead(q);
    WordRead(w, "}" + q, Braces([""], 1));
    assert [""] + [] == [""] && [Word(w)] + [] == [Word(w)];
    FirstWord(Word(w), [], |WordText(w)|, 1);
  }

  lemma NextRead(w: Spelling, more: string, words: seq<string>, n: nat)
    requires WellSpelled(w) && ReadBraces(more, 0) == Some(Braces(words, n))
    ensures ReadBraces(WordText(w) + ("," + more), 0) == Some(Braces([Word(w)] + words, |WordText(w)| + (1 + n)))
  {
    CommaRead(more, Braces(words, n));
    WordRead(w, "," + more, Braces([""] + words, 1 + n));
    FirstWord(Word(w), words, |WordText(w)|, 1 + n);
  }

  lemma WordsCons(ws: seq<Spelling>)
    requires ws != []
    ensures Words(ws) == [Word(ws[0])] + Words(ws[1..])
  {
  }

  lemma {:induction false} WordsRead(ws: seq<Spelling>, q: string)
    requires ws != [] && AllWellSpelled(ws)
    ensures ReadBraces(WordsText(ws) + ("}" + q), 0) == Some(Braces(Words(ws), |WordsText(ws)| + 1))
    decreases |ws|
  {
    WordsCons(ws);
    if |ws| == 1 {
      LastRead(ws[0], q);
      assert Words(ws[1..]) == [] && [Word(ws[0])] + [] == [Word(ws[0])];
    } else {
      WordsRead(ws[1..], q);
      WordsReadStep(ws[0], WordsText(ws[1..]), q, Words(ws[1..]));
    }
  }

  lemma WordsReadStep(w: Spelling, text: string, q: string, words: seq<string>)
    requires WellSpelled(w) && ReadBraces(text + ("}" + q), 0) == Some(Braces(words, |text| + 1))
    ensures ReadBraces(WordText(w) + ("," + text) + ("}" + q), 0) ==
            Some(Braces([Word(w)] + words, |WordText(w) + ("," + text)| + 1))
  {
    NextRead(w, text + ("}" + q), words, |text| + 1);
    Assoc(",", text, "}" + q);
    Assoc(WordText(w), "," + text, "}" + q);
  }

  lemma GroupText(ws: seq<Spelling>, q: string)
    requires ws != []
    ensures "{" + WordsText(ws) + "}" + q == "{" + (WordsText(ws) + ("}" + q))
  {
  }

  /** A group with a comma matches each of its words. */
  lemma GroupLaw(ws: seq<Spelling>, q: string, t: string)
    requires |ws| >= 2 && AllWellSpelled(ws)
    ensures GlobMatches("{" + WordsText(ws) + "}" + q, t) <==>
            exists i, k :: 0 <= i < |ws| && 0 <= k <= |t| && t[..k] == Word(ws[i]) && GlobMatches(q, t[k..])
  {
    GroupHead(ws, q);
    FirstToken("{" + WordsText(ws) + "}", q, Group(Words(ws)), t);
    WordChosen(ws, t, q);
  }

  lemma GroupHead(ws: seq<Spelling>, q: string)
    requires |ws| >= 2 && AllWellSpelled(ws)
    ensures Head("{" + WordsText(ws) + "}" + q, 0) == (Group(Words(ws)), |"{" + WordsText(ws) + "}"|)
  {
    WordsRead(ws, q);
    OpenedGroup(WordsText(ws) + ("}" + q), Words(ws), |WordsText(ws)| + 1);
    GroupText(ws, q);
  }

  lemma OpenedGroup(p: string, words: seq<string>, n: nat)
    requires ReadBraces(p, 0) == Some(Braces(words, n)) && |words| >= 2
    ensures Head("{" + p, 0) == (Group(words), 1 + n)
  {
    BracesShift("{", p, 0);
    assert ("{" + p)[0] == '{';
  }

  lemma WordChosen(ws: seq<Spelling>, t: string, q: string)
    ensures Splits(Group(Words(ws)), q, t) <==>
            exists i, k :: 0 <= i < |ws| && 0 <= k <= |t| && t[..k] == Word(ws[i]) && GlobMatches(q, t[k..])
  {
    if k :| 0 <= k <= |t| && Spans(Group(Words(ws)), t, 0, k) && GlobMatches(q, t[k..]) {
      assert t[0..k] == t[..k];
      var i :| 0 <= i < |Words(ws)| && Words(ws)[i] == t[..k];
      assert t[..k] == Word(ws[i]);
    }
    if i, k :| 0 <= i < |ws| && 0 <= k <= |t| && t[..k] == Word(ws[i]) && GlobMatches(q, t[k..]) {
      assert t[0..k] == t[..k] && Words(ws)[i] == t[..k];
      assert Spans(Group(Words(ws)), t, 0, k);
    }
  }

  ghost predicate SpelledBetween(p: string, i: nat, j: nat, ws: seq<Spelling>)
  {
    i <= j <= |p| && ws != [] && AllWellSpelled(ws) && p[i..j] == WordsText(ws)
  }

  lemma CommaSpelled(p: string, i: nat, j: nat, more: seq<Spelling>)
    requires i < j <= |p| && p[i] == ',' && SpelledBetween(p, i + 1, j, more)
    ensures SpelledBetween(p, i, j, [[]] + more)
  {
    assert ([[]] + more)[1..] == more && p[i..j] == "," + p[i + 1..j];
    assert WordText([]) + ("," + WordsText(more)) == "," + WordsText(more);
  }

  lemma CharacterSpelled(p: string, i: nat, j: nat, c: char, escaped: bool, more: seq<Spelling>)
    requires i + |Spell(c, escaped)| <= j <= |p| && p[i..i + |Spell(c, escaped)|] == Spell(c, escaped)
    requires (escaped || c !in {',', '}', '\\'}) && SpelledBetween(p, i + |Spell(c, escaped)|, j, more)
    ensures SpelledBetween(p, i, j, [[(c, escaped)] + more[0]] + more[1..])
  {
    FirstSpelled(c, escaped, more);
    var n := |Spell(c, escaped)|;
    assert p[i..j] == p[i..i + n] + p[i + n..j];
  }

  /** The width of the character at `i` of a group. */
  function Width(p: string, i: nat): nat
    requires i < |p|
  {
    if p[i] == '\\' then 2 else 1
  }

  lemma BracesStep(p: string, i: nat)
    requires i < |p| && ReadBraces(p, i).Some? && p[i] != '}'
    ensures var n := i + Width(p, i);
            && n < |p| && ReadBraces(p, n).Some? && ReadBraces(p, i).value.next == ReadBraces(p, n).value.next
            && |ReadBraces(p, i).value.words| == |ReadBraces(p, n).value.words| + if p[i] == ',' then 1 else 0
  {
  }

  /** What is read as a group is spelled as one. */
  lemma {:induction false} ReadIsSpelled(p: string, i: nat, b: Braces) returns (ws: seq<Spelling>)
    requires i < |p| && ReadBraces(p, i) == Some(b)
    ensures |ws| == |b.words| && i < b.next && SpelledBetween(p, i, b.next - 1, ws)
    decreases |p| - i
  {
    if p[i] == '}' {
      ws := [[]];
    } else {
      BracesStep(p, i);
      var n := i + Width(p, i);
      var more := ReadIsSpelled(p, n, ReadBraces(p, n).value);
      ws := SpelledStep(p, i, b.next - 1, more);
    }
  }

  lemma SpelledStep(p: string, i: nat, j: nat, more: seq<Spelling>) returns (ws: seq<Spelling>)
    requires i < |p| && p[i] != '}' && SpelledBetween(p, i + Width(p, i), j, more)
    ensures SpelledBetween(p, i, j, ws) && |ws| == |more| + if p[i] == ',' then 1 else 0
  {
    if p[i] == ',' {
      ws := [[]] + more;
      CommaSpelled(p, i, j, more);
    } else {
      var escaped := p[i] == '\\';
      var c := if escaped then p[i + 1] else p[i];
      ws := [[(c, escaped)] + more[0]] + more[1..];
      CharacterSpelled(p, i, j, c, escaped, more);
    }
  }

  lemma FirstSpelled(c: char, escaped: bool, more: seq<Spelling>)
    requires more != [] && AllWellSpelled(more) && (escaped || c !in {',', '}', '\\'})
    ensures var ws := [[(c, escaped)] + more[0]] + more[1..];
            AllWellSpelled(ws) && WordsText(ws) == Spell(c, escaped) + WordsText(more)
  {
    var w := [(c, escaped)] + more[0];
    var ws := [w] + more[1..];
    assert w[1..] == more[0] && ws[1..] == more[1..];
    assert WordText(w) == Spell(c, escaped) + WordText(more[0]);
    if |more| > 1 {
      Assoc(Spell(c, escaped), WordText(more[0]), "," + WordsText(more[1..]));
    }
  }

  predicate ClosesGroup(p: string, ws: seq<Spelling>, q: string)
  {
    |ws| >= 2 && AllWellSpelled(ws) && p == WordsText(ws) + ("}" + q)
  }

  lemma NoGroupRead(p: string)
    ensures ReadBraces(p, 0).Some? && |ReadBraces(p, 0).value.words| >= 2 ==> exists ws, q :: ClosesGroup(p, ws, q)
  {
    var b := ReadBraces(p, 0);
    if b.Some? && |b.value.words| >= 2 {
      var ws := ReadIsSpelled(p, 0, b.value);
      var n := b.value.next;
      assert p == p[0..n - 1] + ("}" + p[n..]);
      assert ClosesGroup(p, ws, p[n..]);
    }
  }

  lemma LiteralBrace(p: string)
    requires !(ReadBraces(p, 0).Some? && |ReadBraces(p, 0).value.words| >= 2)
    ensures Head("{" + p, 0) == (Literal('{'), 1)
  {
    BracesShift("{", p, 0);
    assert ("{" + p)[0] == '{';
  }

  /** An opening brace that starts no such group matches itself. */
  lemma UnclosedGroupLaw(p: string, t: string)
    requires !exists ws, q :: ClosesGroup(p, ws, q)
    ensures GlobMatches("{" + p, t) <==> t != "" && t[0] == '{' && GlobMatches(p, t[1..])
  {
    NoGroupRead(p);
    LiteralBrace(p);
    FirstCharacter("{", p, Literal('{'), t);
  }
}
