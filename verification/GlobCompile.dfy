/** Translation of glob patterns to regular-expression text, and what the text means when
    it is parsed and matched again. */
module GlobCompile {
  import opened Options
  import opened Strings
  import opened GlobPattern
  import R = GoRegexp

  // ----- The text emitted for each token -----

  function QuoteMeta(c: char): (r: string)
    ensures r != ""
  {
    if R.Meta(c) then ['\\', c] else [c]
  }

  function QuoteWord(w: string): string
  {
    if w == "" then "" else QuoteMeta(w[0]) + QuoteWord(w[1..])
  }

  function JoinWords(words: seq<string>): string
  {
    if words == [] then ""
    else if |words| == 1 then QuoteWord(words[0])
    else QuoteWord(words[0]) + "|" + JoinWords(words[1..])
  }

  /** A class body without the backslashes that escape its characters. */
  function Unescaped(body: string): string
    decreases |body|
  {
    if body == "" then ""
    else if body[0] == '\\' && |body| > 1 then [body[1]] + Unescaped(body[2..])
    else [body[0]] + Unescaped(body[1..])
  }

  /** Between the brackets: `!` becomes `^`, a leading `^` is escaped. */
  function ClassText(inner: string): string
  {
    if inner != "" && inner[0] == '!' then "^" + Unescaped(inner[1..])
    else if inner != "" && inner[0] == '^' then "\\^" + Unescaped(inner[1..])
    else Unescaped(inner)
  }

  function Emit(tok: Token): string
  {
    match tok
    case DoubleStar => ".*"
    case Star => "[^/]*"
    case AnyChar => "[^/]"
    case Class(inner) => "[" + ClassText(inner) + "]"
    case Group(words) => "(?:" + JoinWords(words) + ")"
    case Literal(c) => QuoteMeta(c)
  }

  function EmitAll(ts: seq<Token>): string
  {
    if ts == [] then "" else Emit(ts[0]) + EmitAll(ts[1..])
  }

  /** The anchored, case-sensitive regular expression. */
  function RegexText(p: string): string { "^" + EmitAll(Tokens(p)) + "$" }

  // ----- Which classes survive the trip through text -----

  /** Ranges of a class body whose escapes have been dropped. */
  function Ranges(body: string): seq<(char, char)>
    decreases |body|
  {
    if body == "" then []
    else if |body| >= 3 && body[1] == '-' then [(body[0], body[2])] + Ranges(body[3..])
    else [(body[0], body[0])] + Ranges(body[1..])
  }

  predicate RangesIncrease(body: string)
  {
    forall k :: 0 <= k < |Ranges(body)| ==> Ranges(body)[k].0 <= Ranges(body)[k].1
  }

  /** No backslash, no bracket-colon, no closing bracket. */
  predicate PlainChars(body: string)
  {
    && (forall i :: 0 <= i < |body| ==> body[i] != '\\' && body[i] != ']')
    && (forall i :: 0 <= i < |body| - 1 ==> !(body[i] == '[' && body[i + 1] == ':'))
  }

  /** No escaped dash stands between a single member and another one, where dropping its
      backslash would make a range. */
  predicate NoEscapedRange(body: string)
    decreases |body|
  {
    if body == "" then true
    else
      var rest := body[Member(body).1..];
      if |rest| >= 2 && rest[0] == '-' then NoEscapedRange(rest[1 + Member(rest[1..]).1..])
      else !(|rest| > 2 && rest[0] == '\\' && rest[1] == '-') && NoEscapedRange(rest)
  }

  /** Once its escapes are dropped, non-empty, of plain characters and increasing ranges. */
  predicate PlainBody(body: string)
  {
    var u := Unescaped(body);
    u != "" && PlainChars(u) && RangesIncrease(u) && NoEscapedRange(body)
  }

  function BodyOf(inner: string): string { if inner != "" && inner[0] == '!' then inner[1..] else inner }

  /** An escaped caret in first position would negate the class once its backslash is dropped. */
  predicate EscapedCaret(inner: string) { |inner| > 1 && inner[0] == '\\' && inner[1] == '^' }

  predicate PlainClass(inner: string) { PlainBody(BodyOf(inner)) && !EscapedCaret(inner) }

  predicate PlainToken(tok: Token) { tok.Class? ==> PlainClass(tok.inner) }

  predicate PlainTokens(ts: seq<Token>) { forall k :: 0 <= k < |ts| ==> PlainToken(ts[k]) }

  /** Every class of the pattern is non-empty and made of plain characters, possibly escaped,
      and increasing ranges; no bracket, backslash or first caret is escaped, and no dash
      between two members. */
  predicate PlainClasses(p: string) { PlainTokens(Tokens(p)) }

  // ----- The piece each token becomes -----

  function SlashFree(): R.CharSet { R.OneOf(true, [('/', '/')]) }

  function PieceOf(tok: Token): R.Piece
  {
    match tok
    case DoubleStar => R.Many(R.NotNewline)
    case Star => R.Many(SlashFree())
    case AnyChar => R.Single(SlashFree())
    case Class(inner) => R.Single(R.OneOf(inner != "" && inner[0] == '!', Ranges(Unescaped(BodyOf(inner)))))
    case Group(words) => R.Words(words)
    case Literal(c) => R.Single(R.Literal(c))
  }

  function PiecesOf(ts: seq<Token>): seq<R.Piece>
  {
    if ts == [] then [R.End] else [PieceOf(ts[0])] + PiecesOf(ts[1..])
  }

  // ----- Parsing what was emitted -----

  lemma RangesTail(body: string, n: nat)
    requires PlainChars(body) && RangesIncrease(body) && body != ""
    requires n == if |body| >= 3 && body[1] == '-' then 3 else 1
    ensures PlainChars(body[n..]) && RangesIncrease(body[n..])
  {
    var tail := body[n..];
    assert Ranges(body)[1..] == Ranges(tail);
    forall k | 0 <= k < |Ranges(tail)| ensures Ranges(tail)[k].0 <= Ranges(tail)[k].1 {
      assert Ranges(tail)[k] == Ranges(body)[k + 1];
    }
    forall i | 0 <= i < |tail| - 1 ensures !(tail[i] == '[' && tail[i + 1] == ':') {
      assert tail[i] == body[i + n] && tail[i + 1] == body[i + n + 1];
    }
  }

  /** A plain body is read back as its ranges. */
  lemma {:induction false} ItemsOfPlain(body: string, rest: string, first: bool)
    requires PlainChars(body) && RangesIncrease(body) && (first ==> body != "")
    ensures R.ClassItems(body + "]" + rest, first) == Some((Ranges(body), rest))
    decreases |body|
  {
    var s := body + "]" + rest;
    if body == "" {
      assert s[0] == ']' && s[1..] == rest;
    } else {
      assert s[0] == body[0];
      assert Ranges(body)[0].0 <= Ranges(body)[0].1;
      if |body| >= 3 && body[1] == '-' {
        RangesTail(body, 3);
        assert s[1..][1..] == s[2..] && s[2..][0] == body[2] && s[2..][1..] == s[3..] && s[3..] == body[3..] + "]" + rest;
        ItemsOfPlain(body[3..], rest, false);
      } else {
        RangesTail(body, 1);
        assert s[1..] == body[1..] + "]" + rest;
        ItemsOfPlain(body[1..], rest, false);
      }
    }
  }

  /** A leading escaped caret is read as a caret. */
  lemma CaretItems(s: string)
    requires s != "" && s[0] == '^'
    ensures R.ClassItems("\\" + s, true) == R.ClassItems(s, true)
  {
    var e := "\\" + s;
    assert e[2..] == s[1..];
  }

  lemma NegatedClassParses(body: string, rest: string)
    requires PlainBody(body)
    ensures R.ParseClass("^" + Unescaped(body) + "]" + rest) == Some((R.OneOf(true, Ranges(Unescaped(body))), rest))
  {
    var u := Unescaped(body);
    ItemsOfPlain(u, rest, true);
    assert ("^" + u + "]" + rest)[1..] == u + "]" + rest;
  }

  lemma CaretClassParses(tail: string, rest: string)
    requires PlainBody("^" + tail)
    ensures R.ParseClass("\\^" + Unescaped(tail) + "]" + rest) == Some((R.OneOf(false, Ranges(Unescaped("^" + tail))), rest))
  {
    var u, v := Unescaped("^" + tail), Unescaped(tail);
    assert ("^" + tail)[1..] == tail && u == "^" + v;
    ItemsOfPlain(u, rest, true);
    CaretText(v, rest);
    EscapedCaretClass("^" + v + "]" + rest);
  }

  lemma CaretText(v: string, rest: string)
    ensures "\\^" + v + "]" + rest == "\\" + ("^" + v + "]" + rest) && ("^" + v + "]" + rest)[0] == '^'
  {
    var t := "^" + v + "]" + rest;
    assert "\\^" + v + "]" + rest == ['\\'] + t;
  }

  lemma EscapedCaretClass(t: string)
    requires t != "" && t[0] == '^' && R.ClassItems(t, true).Some?
    ensures var items := R.ClassItems(t, true).value;
            R.ParseClass("\\" + t) == Some((R.OneOf(false, items.0), items.1))
  {
    CaretItems(t);
    assert ("\\" + t)[0] == '\\';
  }

  lemma {:induction false} OrdinaryClassParses(inner: string, rest: string)
    requires PlainClass(inner) && BodyOf(inner) == inner && (inner != "" ==> inner[0] != '^')
    ensures R.ParseClass(Unescaped(inner) + "]" + rest) == Some((R.OneOf(false, Ranges(Unescaped(inner))), rest))
  {
    var u := Unescaped(inner);
    ItemsOfPlain(u, rest, true);
    assert u[0] != '^';
    assert (u + "]" + rest)[0] == u[0];
  }

  lemma ClassParses(inner: string, rest: string)
    requires PlainClass(inner)
    ensures R.ParseClass(ClassText(inner) + "]" + rest) ==
            Some((R.OneOf(inner != "" && inner[0] == '!', Ranges(Unescaped(BodyOf(inner)))), rest))
  {
    if inner != "" && inner[0] == '!' {
      NegatedClassParses(inner[1..], rest);
    } else if inner != "" && inner[0] == '^' {
      assert inner == "^" + inner[1..];
      CaretClassParses(inner[1..], rest);
    } else {
      OrdinaryClassParses(inner, rest);
    }
  }

  lemma WordCharParses(c: char, tail: string)
    requires R.ParseWords(tail).Some?
    ensures var r := R.ParseWords(tail).value;
            R.ParseWords(QuoteMeta(c) + tail) == Some(([[c] + r.0[0]] + r.0[1..], r.1))
  {
    var s := QuoteMeta(c) + tail;
    if R.Meta(c) {
      assert s[2..] == tail;
    } else {
      assert s[1..] == tail;
    }
  }

  lemma {:induction false} WordParses(w: string, rest: string)
    requires R.ParseWords(rest).Some?
    ensures var r := R.ParseWords(rest).value;
            R.ParseWords(QuoteWord(w) + rest) == Some(([w + r.0[0]] + r.0[1..], r.1))
    decreases |w|
  {
    var r := R.ParseWords(rest).value;
    if w == "" {
      assert QuoteWord(w) + rest == rest;
      assert w + r.0[0] == r.0[0];
      assert [r.0[0]] + r.0[1..] == r.0;
    } else {
      WordParses(w[1..], rest);
      var tail := QuoteWord(w[1..]) + rest;
      Assoc(QuoteMeta(w[0]), QuoteWord(w[1..]), rest);
      WordCharParses(w[0], tail);
      WordJoins(w, r.0[0], r.0[1..]);
    }
  }

  lemma WordJoins(w: string, x: string, more: seq<string>)
    requires w != ""
    ensures [[w[0]] + ([w[1..] + x] + more)[0]] + ([w[1..] + x] + more)[1..] == [w + x] + more
  {
    assert w == [w[0]] + w[1..];
    Assoc([w[0]], w[1..], x);
  }

  lemma {:induction false} WordsParse(words: seq<string>, rest: string)
    requires words != []
    ensures R.ParseWords(JoinWords(words) + (")" + rest)) == Some((words, rest))
    decreases |words|
  {
    var close := ")" + rest;
    assert close[1..] == rest;
    if |words| == 1 {
      WordParses(words[0], close);
      LastWord(words[0]);
      assert [words[0]] == words;
    } else {
      var more := JoinWords(words[1..]) + close;
      WordsParse(words[1..], rest);
      var tail := "|" + more;
      assert tail[1..] == more;
      WordParses(words[0], tail);
      FirstWord(words);
      Assoc(QuoteWord(words[0]) + "|", JoinWords(words[1..]), close);
      Assoc(QuoteWord(words[0]), "|", more);
    }
  }

  lemma LastWord(w: string)
    ensures [w + [""][0]] + [""][1..] == [w]
  {
    assert w + "" == w;
  }

  lemma FirstWord(words: seq<string>)
    requires words != []
    ensures var ws := [""] + words[1..]; [words[0] + ws[0]] + ws[1..] == words
  {
    assert words[0] + "" == words[0];
    assert ([""] + words[1..])[1..] == words[1..];
    assert [words[0]] + words[1..] == words;
  }

  lemma StarsParse(rest: string)
    requires !R.StartsQuantifier(rest)
    ensures R.NextPiece(".*" + rest) == Some((R.Many(R.NotNewline), rest))
    ensures R.NextPiece("[^/]*" + rest) == Some((R.Many(SlashFree()), rest))
    ensures R.NextPiece("[^/]" + rest) == Some((R.Single(SlashFree()), rest))
  {
    assert (".*" + rest)[1..] == "*" + rest && ("*" + rest)[1..] == rest;
    assert "[^/]*" + rest == "[^/]" + ("*" + rest);
    SlashFreeParses("*" + rest, "[^/]*" + rest);
    SlashFreeParses(rest, "[^/]" + rest);
  }

  lemma LiteralParses(c: char, rest: string)
    requires !R.StartsQuantifier(rest)
    ensures R.NextPiece(QuoteMeta(c) + rest) == Some((R.Single(R.Literal(c)), rest))
  {
    var s := QuoteMeta(c) + rest;
    if R.Meta(c) {
      assert s[2..] == rest;
    } else {
      assert s[1..] == rest;
    }
  }

  lemma ClassTokenText(inner: string, rest: string)
    ensures Emit(Class(inner)) + rest == "[" + (ClassText(inner) + "]" + rest)
  {
    Assoc("[", ClassText(inner), "]");
    Assoc("[", ClassText(inner) + "]", rest);
  }

  lemma ClassTokenParses(inner: string, rest: string)
    requires PlainClass(inner) && !R.StartsQuantifier(rest)
    ensures R.NextPiece(Emit(Class(inner)) + rest) == Some((PieceOf(Class(inner)), rest))
  {
    ClassTokenText(inner, rest);
    ClassParses(inner, rest);
    SetPiece(ClassText(inner) + "]" + rest, PieceOf(Class(inner)).set1, rest);
  }

  lemma SetPiece(body: string, cs: R.CharSet, rest: string)
    requires R.ParseClass(body) == Some((cs, rest)) && !R.StartsQuantifier(rest)
    ensures R.NextPiece("[" + body) == Some((R.Single(cs), rest))
  {
    assert ("[" + body)[1..] == body;
  }

  lemma GroupTokenParses(words: seq<string>, rest: string)
    requires words != [] && !R.StartsQuantifier(rest)
    ensures R.NextPiece(Emit(Group(words)) + rest) == Some((R.Words(words), rest))
  {
    var s := Emit(Group(words)) + rest;
    WordsParse(words, rest);
    assert s[0] == '(' && s[1] == '?' && s[2] == ':';
    assert s[3..] == JoinWords(words) + (")" + rest);
  }

  /** One token's text is read back as its piece, whatever follows, as long as that is not a quantifier. */
  lemma TokenParses(tok: Token, rest: string)
    requires PlainToken(tok) && (tok.Group? ==> tok.words != []) && !R.StartsQuantifier(rest)
    ensures R.NextPiece(Emit(tok) + rest) == Some((PieceOf(tok), rest))
  {
    match tok
    case DoubleStar => StarsParse(rest);
    case Star => StarsParse(rest);
    case AnyChar => StarsParse(rest);
    case Class(inner) => ClassTokenParses(inner, rest);
    case Group(words) => GroupTokenParses(words, rest);
    case Literal(c) => LiteralParses(c, rest);
  }

  lemma SlashFreeParses(rest: string, s: string)
    requires s == "[^/]" + rest
    ensures R.ParseSet(s) == Some((SlashFree(), rest))
  {
    assert s[1..] == "^" + ("/" + "]" + rest);
    assert s[1..][1..] == "/" + "]" + rest;
    assert Ranges("/") == [('/', '/')];
    ItemsOfPlain("/", rest, true);
  }

  lemma EmittedStart(tok: Token, rest: string)
    ensures Emit(tok) != "" && !R.StartsQuantifier(Emit(tok) + rest) && (Emit(tok) + rest)[0] != '|'
  {
    assert (Emit(tok) + rest)[0] == Emit(tok)[0];
  }

  predicate GroupsNonEmpty(ts: seq<Token>) { forall k :: 0 <= k < |ts| && ts[k].Group? ==> ts[k].words != [] }

  lemma RestIsNoQuantifier(ts: seq<Token>)
    ensures !R.StartsQuantifier(EmitAll(ts) + "$")
  {
    if ts != [] {
      assert EmitAll(ts) + "$" == Emit(ts[0]) + (EmitAll(ts[1..]) + "$");
      EmittedStart(ts[0], EmitAll(ts[1..]) + "$");
    }
  }

  lemma ParseStep(s: string, piece: R.Piece, rest: string, pieces: seq<R.Piece>)
    requires s != "" && s[0] != '|' && R.NextPiece(s) == Some((piece, rest)) && R.Parse(rest) == Some([pieces])
    ensures R.Parse(s) == Some([[piece] + pieces])
  {
    assert [[piece] + pieces] + [pieces][1..] == [[piece] + pieces];
  }

  lemma {:induction false} TokensParse(ts: seq<Token>)
    requires PlainTokens(ts) && GroupsNonEmpty(ts)
    ensures R.Parse(EmitAll(ts) + "$") == Some([PiecesOf(ts)])
    decreases |ts|
  {
    if ts == [] {
      assert EmitAll(ts) + "$" == "$";
      assert "$"[1..] == "";
      ParseStep("$", R.End, "", []);
      assert [R.End] + [] == [R.End];
    } else {
      var rest := EmitAll(ts[1..]) + "$";
      var s := EmitAll(ts) + "$";
      assert s == Emit(ts[0]) + rest;
      RestIsNoQuantifier(ts[1..]);
      TokenParses(ts[0], rest);
      EmittedStart(ts[0], rest);
      assert PlainTokens(ts[1..]) && GroupsNonEmpty(ts[1..]);
      TokensParse(ts[1..]);
      ParseStep(s, PieceOf(ts[0]), rest, PiecesOf(ts[1..]));
    }
  }

  lemma {:induction false} TokensHaveWords(p: string, i: nat)
    requires i <= |p|
    ensures GroupsNonEmpty(TokensFrom(p, i))
    decreases |p| - i
  {
    if i < |p| { TokensHaveWords(p, Head(p, i).1); }
  }

  lemma BeginParses(p: string)
    ensures RegexText(p) != "" && RegexText(p)[0] == '^'
    ensures R.NextPiece(RegexText(p)) == Some((R.Begin, EmitAll(Tokens(p)) + "$"))
  {
    var s, rest := RegexText(p), EmitAll(Tokens(p)) + "$";
    RestIsNoQuantifier(Tokens(p));
    assert s == "^" + rest && s[1..] == rest;
  }

  /** A pattern with plain classes always compiles, to one alternative. */
  lemma RegexTextParses(p: string)
    requires PlainClasses(p)
    ensures R.Parse(RegexText(p)) == Some([[R.Begin] + PiecesOf(Tokens(p))])
  {
    var ts := Tokens(p);
    TokensHaveWords(p, 0);
    TokensParse(ts);
    BeginParses(p);
    ParseStep(RegexText(p), R.Begin, EmitAll(ts) + "$", PiecesOf(ts));
  }

  // ----- Meaning is preserved -----

  lemma UnescapedMember(body: string)
    requires body != ""
    ensures Unescaped(body) == [Member(body).0] + Unescaped(body[Member(body).1..])
  {
  }

  lemma RangesSingle(lo: char, v: string)
    requires !(|v| >= 2 && v[0] == '-')
    ensures Ranges([lo] + v) == [(lo, lo)] + Ranges(v)
  {
    var u := [lo] + v;
    assert u[0] == lo && u[1..] == v;
    assert |u| >= 3 ==> u[1] == v[0];
  }

  lemma RangesDash(lo: char, hi: char, tail: string)
    ensures Ranges([lo, '-', hi] + tail) == [(lo, hi)] + Ranges(tail)
  {
    var u := [lo, '-', hi] + tail;
    assert u[0] == lo && u[1] == '-' && u[2] == hi && u[3..] == tail;
  }

  lemma UnescapedNoDash(rest: string)
    requires !(|rest| >= 2 && rest[0] == '-') && !(|rest| > 2 && rest[0] == '\\' && rest[1] == '-')
    ensures !(|Unescaped(rest)| >= 2 && Unescaped(rest)[0] == '-')
  {
    if rest != "" {
      UnescapedMember(rest);
      if Member(rest).0 == '-' {
        assert rest[Member(rest).1..] == "" && Unescaped("") == "";
      }
    }
  }

  lemma UnescapedDash(lo: char, rest: string)
    requires |rest| >= 2 && rest[0] == '-'
    ensures var (hi, m) := Member(rest[1..]);
            [lo] + Unescaped(rest) == [lo, '-', hi] + Unescaped(rest[1 + m..])
  {
    var tail := rest[1..];
    var (hi, m) := Member(tail);
    assert tail[m..] == rest[1 + m..];
    UnescapedMember(tail);
    UnescapedMember(rest);
    ThreeChars(lo, hi, Unescaped(tail[m..]));
  }

  lemma ThreeChars(lo: char, hi: char, tail: string)
    ensures [lo] + (['-'] + ([hi] + tail)) == [lo, '-', hi] + tail
  {
  }

  /** Listed members are the ranges of the text that is emitted for them. */
  lemma {:induction false} ListedIsInRanges(body: string, c: char)
    requires NoEscapedRange(body)
    ensures Listed(body, c) <==> R.InRanges(Ranges(Unescaped(body)), c)
    decreases |body|
  {
    if body != "" {
      var (lo, n) := Member(body);
      var rest := body[n..];
      UnescapedMember(body);
      if |rest| >= 2 && rest[0] == '-' {
        var (hi, m) := Member(rest[1..]);
        var tail := rest[1 + m..];
        UnescapedDash(lo, rest);
        RangesDash(lo, hi, Unescaped(tail));
        RangesCons((lo, hi), Ranges(Unescaped(tail)), c);
        ListedIsInRanges(tail, c);
      } else {
        UnescapedNoDash(rest);
        RangesSingle(lo, Unescaped(rest));
        RangesCons((lo, lo), Ranges(Unescaped(rest)), c);
        ListedIsInRanges(rest, c);
      }
    }
  }

  lemma RangesCons(head: (char, char), tail: seq<(char, char)>, c: char)
    ensures R.InRanges([head] + tail, c) <==> head.0 <= c <= head.1 || R.InRanges(tail, c)
  {
    var all := [head] + tail;
    if head.0 <= c <= head.1 {
      assert all[0] == head;
    }
    if R.InRanges(tail, c) {
      var k :| 0 <= k < |tail| && tail[k].0 <= c <= tail[k].1;
      assert all[k + 1] == tail[k];
    }
    if R.InRanges(all, c) {
      var k :| 0 <= k < |all| && all[k].0 <= c <= all[k].1;
      if k > 0 { assert tail[k - 1] == all[k]; }
    }
  }

  /** The three character tests of the two languages agree. */
  lemma SetsAgree(tok: Token, c: char)
    requires PlainToken(tok)
    ensures tok.Class? ==> (R.Accepts(PieceOf(tok).set1, c) <==> ClassAccepts(tok.inner, c))
    ensures R.Accepts(SlashFree(), c) <==> c != '/'
    ensures tok.Literal? ==> (R.Accepts(PieceOf(tok).set1, c) <==> c == tok.c)
  {
    RangesCons(('/', '/'), [], c);
    assert [('/', '/')] + [] == [('/', '/')];
    if tok.Class? {
      ListedIsInRanges(BodyOf(tok.inner), c);
    }
    if tok.Literal? {
      RangesCons((tok.c, tok.c), [], c);
      assert [(tok.c, tok.c)] + [] == [(tok.c, tok.c)];
    }
  }

  predicate NewlineFree(t: string) { '\n' !in t }

  /** Token and piece match the same stretches; only the dot is stricter, on newlines. */
  lemma SpansAgree(tok: Token, t: string, i: nat, k: nat)
    requires PlainToken(tok) && i <= k <= |t|
    ensures R.Spans(PieceOf(tok), t, i, k) ==> Spans(tok, t, i, k)
    ensures Spans(tok, t, i, k) && (tok == DoubleStar ==> NewlineFree(t)) ==> R.Spans(PieceOf(tok), t, i, k)
  {
    match tok
    case DoubleStar =>
    case Group(words) =>
    case Star =>
      forall j | i <= j < k ensures R.Accepts(SlashFree(), t[j]) <==> t[j] != '/' {
        SetsAgree(tok, t[j]);
      }
    case _ => if k == i + 1 { SetsAgree(tok, t[i]); }
  }

  /** What the regular expression matches, the glob matches, newlines or not. */
  lemma {:induction false} RegexSound(ts: seq<Token>, t: string, i: nat)
    requires PlainTokens(ts) && i <= |t| && R.MatchesAt(PiecesOf(ts), t, i)
    ensures MatchesFrom(ts, t, i)
    decreases |ts|
  {
    var ps := PiecesOf(ts);
    var k :| i <= k <= |t| && R.Spans(ps[0], t, i, k) && R.MatchesAt(ps[1..], t, k);
    if ts != [] {
      assert ps[1..] == PiecesOf(ts[1..]);
      SpansAgree(ts[0], t, i, k);
      RegexSound(ts[1..], t, k);
    }
  }

  /** What the glob matches, the regular expression matches, if the text has no newline or
      the glob no double star. */
  lemma {:induction false} RegexComplete(ts: seq<Token>, t: string, i: nat)
    requires PlainTokens(ts) && i <= |t| && MatchesFrom(ts, t, i)
    requires NewlineFree(t) || DoubleStar !in ts
    ensures R.MatchesAt(PiecesOf(ts), t, i)
    decreases |ts|
  {
    var ps := PiecesOf(ts);
    if ts == [] {
      assert R.Spans(ps[0], t, i, i) && R.MatchesAt(ps[1..], t, i);
    } else {
      var k :| i <= k <= |t| && Spans(ts[0], t, i, k) && MatchesFrom(ts[1..], t, k);
      assert ps[1..] == PiecesOf(ts[1..]);
      SpansAgree(ts[0], t, i, k);
      RegexComplete(ts[1..], t, k);
    }
  }

  /** Searching for the anchored expression is matching its pieces at the start. */
  lemma MatchStringIff(p: string, t: string)
    requires PlainClasses(p)
    ensures R.MatchString(RegexText(p), t) <==> R.MatchesAt(PiecesOf(Tokens(p)), t, 0)
  {
    RegexTextParses(p);
    var branch := [R.Begin] + PiecesOf(Tokens(p));
    assert branch[1..] == PiecesOf(Tokens(p));
    assert R.Parse(RegexText(p)).value[0] == branch;
    if R.MatchesAt(PiecesOf(Tokens(p)), t, 0) {
      assert R.Spans(branch[0], t, 0, 0);
      assert R.MatchesAt(branch, t, 0);
    }
  }

  /** Translation preserves meaning, for every pattern whose classes are plain and every text. */
  lemma TranslationPreservesMeaning(p: string, t: string)
    requires PlainClasses(p)
    ensures R.MatchString(RegexText(p), t) ==> GlobMatches(p, t)
    ensures NewlineFree(t) || DoubleStar !in Tokens(p) ==> (R.MatchString(RegexText(p), t) <==> GlobMatches(p, t))
  {
    MatchStringIff(p, t);
    if R.MatchString(RegexText(p), t) {
      RegexSound(Tokens(p), t, 0);
    }
    if (NewlineFree(t) || DoubleStar !in Tokens(p)) && GlobMatches(p, t) {
      RegexComplete(Tokens(p), t, 0);
    }
  }

  // ----- The newline condition is exact -----

  /** `n` times newline, slash: a text that only `**` can cross. */
  function Zigzag(n: nat): (s: string)
    ensures |s| == 2 * n
  {
    if n == 0 then "" else Zigzag(n - 1) + "\n/"
  }

  lemma {:induction false} ZigzagAt(n: nat, j: nat)
    requires j < 2 * n
    ensures Zigzag(n)[j] == if j % 2 == 0 then '\n' else '/'
    decreases n
  {
    if j < 2 * (n - 1) { ZigzagAt(n - 1, j); }
  }

  /** How much of a zigzag one piece can consume. */
  function Reach(tok: Token): nat
  {
    match tok
    case Group(words) => Longest(words)
    case _ => 1
  }

  function Longest(words: seq<string>): nat
  {
    if words == [] then 0
    else var n := Longest(words[1..]); if |words[0]| > n then |words[0]| else n
  }

  lemma {:induction false} LongestBounds(words: seq<string>, w: string)
    requires w in words
    ensures |w| <= Longest(words)
  {
    if w != words[0] { LongestBounds(words[1..], w); }
  }

  function TotalReach(ts: seq<Token>): nat { if ts == [] then 0 else Reach(ts[0]) + TotalReach(ts[1..]) }

  /** The part of positions below `i` that lies in the stretch from `a` to `b`. */
  function Inside(i: int, a: int, b: int): int { if i < a then 0 else if i > b then b - a else i - a }

  /** The text has a zigzag from `a` to `b`. */
  predicate ZigzagIn(t: string, a: nat, b: nat)
    requires a <= b <= |t|
  {
    forall j :: a <= j < b ==> t[j] == if (j - a) % 2 == 0 then '\n' else '/'
  }

  lemma StretchReach(s: R.CharSet, t: string, i: nat, k: nat, a: nat, b: nat)
    requires a <= b <= |t| && ZigzagIn(t, a, b) && i <= k <= |t| && R.AllAccepted(s, t, i, k)
    requires s == R.NotNewline || s == SlashFree()
    ensures Inside(k, a, b) - Inside(i, a, b) <= 1
  {
    var lo := if i < a then a else i;
    if Inside(k, a, b) - Inside(i, a, b) >= 2 {
      assert lo + 1 < b && lo + 1 < k;
      SetsAgree(Star, t[lo]);
      SetsAgree(Star, t[lo + 1]);
    }
  }

  /** One piece consumes at most its reach of the zigzag. */
  lemma PieceReach(tok: Token, t: string, i: nat, k: nat, a: nat, b: nat)
    requires i <= k <= |t| && a <= b <= |t| && ZigzagIn(t, a, b)
    requires R.Spans(PieceOf(tok), t, i, k)
    ensures Inside(k, a, b) - Inside(i, a, b) <= Reach(tok)
  {
    match tok
    case DoubleStar => StretchReach(R.NotNewline, t, i, k, a, b);
    case Star => StretchReach(SlashFree(), t, i, k, a, b);
    case Group(words) => LongestBounds(words, t[i..k]);
    case _ =>
  }

  /** So the whole zigzag is too long for pieces whose reaches add up to less. */
  lemma {:induction false} ZigzagTooLong(ts: seq<Token>, t: string, i: nat, a: nat, b: nat)
    requires i <= |t| && a <= b <= |t| && ZigzagIn(t, a, b)
    requires R.MatchesAt(PiecesOf(ts), t, i)
    ensures b - a - Inside(i, a, b) <= TotalReach(ts)
    decreases |ts|
  {
    var ps := PiecesOf(ts);
    var k :| i <= k <= |t| && R.Spans(ps[0], t, i, k) && R.MatchesAt(ps[1..], t, k);
    if ts != [] {
      assert ps[1..] == PiecesOf(ts[1..]);
      PieceReach(ts[0], t, i, k, a, b);
      ZigzagTooLong(ts[1..], t, k, a, b);
    }
  }

  /** `w` is a text the token matches. */
  predicate Fits(tok: Token, w: string) { Spans(tok, w, 0, |w|) }

  ghost predicate CanMatch(tok: Token) { exists w :: Fits(tok, w) }

  /** Every class accepts some character (every other token always matches something). */
  ghost predicate Satisfiable(ts: seq<Token>) { forall k :: 0 <= k < |ts| ==> CanMatch(ts[k]) }

  ghost function Sample(tok: Token): string { if w :| Fits(tok, w) then w else "" }

  ghost function Samples(ts: seq<Token>): string { if ts == [] then "" else Sample(ts[0]) + Samples(ts[1..]) }

  lemma SuffixAfter(t: string, i: nat, w: string, rest: string)
    requires i <= |t| && t[i..] == w + rest
    ensures i + |w| <= |t| && t[i..i + |w|] == w && t[i + |w|..] == rest
  {
    assert t[i..][..|w|] == w && t[i..][|w|..] == rest;
  }

  lemma FitsAt(tok: Token, w: string, t: string, i: nat)
    requires Fits(tok, w) && i + |w| <= |t| && t[i..i + |w|] == w
    ensures Spans(tok, t, i, i + |w|)
  {
    assert forall j :: 0 <= j < |w| ==> t[i + j] == w[j];
    match tok
    case Group(words) => assert w[0..|w|] == w;
    case Star => assert forall j :: i <= j < i + |w| ==> t[j] == w[j - i];
    case _ =>
  }

  lemma MatchesCons(ts: seq<Token>, t: string, i: nat, k: nat)
    requires ts != [] && i <= k <= |t| && Spans(ts[0], t, i, k) && MatchesFrom(ts[1..], t, k)
    ensures MatchesFrom(ts, t, i)
  {
  }

  lemma TakeSample(ts: seq<Token>, t: string, i: nat, rest: string)
    requires Satisfiable(ts) && ts != [] && i <= |t| && t[i..] == Sample(ts[0]) + rest
    ensures var k := i + |Sample(ts[0])|;
            k <= |t| && t[k..] == rest && Spans(ts[0], t, i, k) && Satisfiable(ts[1..])
  {
    assert CanMatch(ts[0]);
    SuffixAfter(t, i, Sample(ts[0]), rest);
    FitsAt(ts[0], Sample(ts[0]), t, i);
  }

  lemma {:induction false} SamplesMatch(ts: seq<Token>, t: string, i: nat)
    requires Satisfiable(ts) && i <= |t| && t[i..] == Samples(ts)
    ensures MatchesFrom(ts, t, i)
    decreases |ts|
  {
    if ts == [] {
      assert |t[i..]| == 0;
    } else {
      var w := Sample(ts[0]);
      TakeSample(ts, t, i, Samples(ts[1..]));
      SamplesMatch(ts[1..], t, i + |w|);
      MatchesCons(ts, t, i, i + |w|);
    }
  }

  /** The samples, with `middle` in place of the one for token `d`. */
  ghost function Around(ts: seq<Token>, d: nat, middle: string): string
    requires d < |ts|
  {
    if d == 0 then middle + Samples(ts[1..]) else Sample(ts[0]) + Around(ts[1..], d - 1, middle)
  }

  lemma {:induction false} AroundSplit(ts: seq<Token>, d: nat, middle: string) returns (x: string, y: string)
    requires d < |ts|
    ensures Around(ts, d, middle) == x + (middle + y)
  {
    if d == 0 {
      x, y := "", Samples(ts[1..]);
      assert middle + y == "" + (middle + y);
    } else {
      x, y := AroundSplit(ts[1..], d - 1, middle);
      Assoc(Sample(ts[0]), x, middle + y);
      x := Sample(ts[0]) + x;
    }
  }

  lemma SamplesAfter(ts: seq<Token>, middle: string, t: string, i: nat)
    requires Satisfiable(ts) && ts != [] && ts[0] == DoubleStar
    requires i <= |t| && t[i..] == middle + Samples(ts[1..])
    ensures MatchesFrom(ts, t, i)
  {
    SuffixAfter(t, i, middle, Samples(ts[1..]));
    SamplesMatch(ts[1..], t, i + |middle|);
    MatchesCons(ts, t, i, i + |middle|);
  }

  /** A double star takes any text between the samples. */
  lemma {:induction false} SamplesAround(ts: seq<Token>, d: nat, middle: string, t: string, i: nat)
    requires Satisfiable(ts) && d < |ts| && ts[d] == DoubleStar
    requires i <= |t| && t[i..] == Around(ts, d, middle)
    ensures MatchesFrom(ts, t, i)
    decreases |ts|
  {
    if d == 0 {
      SamplesAfter(ts, middle, t, i);
    } else {
      var w, tail := Sample(ts[0]), ts[1..];
      TakeSample(ts, t, i, Around(tail, d - 1, middle));
      SamplesAround(tail, d - 1, middle, t, i + |w|);
      MatchesCons(ts, t, i, i + |w|);
    }
  }

  /** With a double star, some text with newlines is matched by the glob only. */
  lemma DoubleStarMissesNewlines(p: string) returns (t: string)
    requires PlainClasses(p) && Satisfiable(Tokens(p)) && DoubleStar in Tokens(p)
    ensures GlobMatches(p, t) && !R.MatchString(RegexText(p), t)
  {
    var ts := Tokens(p);
    var d :| 0 <= d < |ts| && ts[d] == DoubleStar;
    var n := TotalReach(ts) + 1;
    var x, y := AroundSplit(ts, d, Zigzag(n));
    t := x + (Zigzag(n) + y);
    assert t[0..] == t;
    SamplesAround(ts, d, Zigzag(n), t, 0);
    ZigzagInside(n, x, y);
    MatchStringIff(p, t);
    if R.MatchesAt(PiecesOf(ts), t, 0) {
      ZigzagTooLong(ts, t, 0, |x|, |x| + 2 * n);
    }
  }

  lemma ZigzagInside(n: nat, x: string, y: string)
    ensures ZigzagIn(x + (Zigzag(n) + y), |x|, |x| + 2 * n)
  {
    var t := x + (Zigzag(n) + y);
    forall j | |x| <= j < |x| + 2 * n ensures t[j] == if (j - |x|) % 2 == 0 then '\n' else '/' {
      ZigzagAt(n, j - |x|);
      assert t[j] == Zigzag(n)[j - |x|];
    }
  }

  /** A satisfiable pattern of plain classes is translated faithfully for all texts, newlines
      included, exactly when it has no double star. */
  lemma FaithfulOnAllTextsIff(p: string)
    requires PlainClasses(p) && Satisfiable(Tokens(p))
    ensures (forall t :: R.MatchString(RegexText(p), t) <==> GlobMatches(p, t)) <==> DoubleStar !in Tokens(p)
  {
    if DoubleStar in Tokens(p) {
      var t := DoubleStarMissesNewlines(p);
    } else {
      forall t ensures R.MatchString(RegexText(p), t) <==> GlobMatches(p, t) {
        TranslationPreservesMeaning(p, t);
      }
    }
  }

  // ----- Classes that lose their meaning with their escapes -----

  /** `[lo\-hi]` lists three characters; the emitted class is the range between two of them. */
  lemma EscapedDashMakesRange(lo: char, hi: char, c: char, rest: string)
    requires lo < hi && lo !in {'\\', ']', '[', '^', '!', '-'} && hi !in {'\\', ']'} && lo < c < hi && c != '-'
    ensures var inner := [lo, '\\', '-', hi];
            && !ClassAccepts(inner, c)
            && R.ParseClass(ClassText(inner) + "]" + rest) == Some((R.OneOf(false, [(lo, hi)]), rest))
            && R.Accepts(R.OneOf(false, [(lo, hi)]), c)
  {
    var inner, u := [lo, '\\', '-', hi], [lo, '-', hi];
    assert inner[1..] == ['\\', '-', hi] && inner[1..][2..] == [hi] && [hi][1..] == "";
    assert Unescaped([hi]) == [hi];
    assert Unescaped(inner[1..]) == ['-', hi];
    assert ClassText(inner) == u;
    assert Listed([hi], c) == (c == hi);
    assert !Listed(inner[1..], c);
    assert u[3..] == "" && Ranges(u) == [(lo, hi)];
    ItemsOfPlain(u, rest, true);
    assert (u + "]" + rest)[0] == lo;
    RangesCons((lo, hi), [], c);
    assert [(lo, hi)] + [] == [(lo, hi)];
  }

  /** `[\^...]` lists a caret; the emitted class is negated. */
  lemma {:induction false} EscapedCaretNegates(body: string, rest: string)
    requires PlainBody(body) && body[0] != '-'
    ensures var inner := "\\^" + body;
            && ClassAccepts(inner, '^')
            && R.ParseClass(ClassText(inner) + "]" + rest) == Some((R.OneOf(true, Ranges(Unescaped(body))), rest))
            && (forall c :: Listed(body, c) ==> !R.Accepts(R.OneOf(true, Ranges(Unescaped(body))), c))
  {
    var inner := "\\^" + body;
    assert inner[2..] == body && ClassText(inner) == "^" + Unescaped(body);
    NegatedClassParses(body, rest);
    forall c | Listed(body, c) ensures !R.Accepts(R.OneOf(true, Ranges(Unescaped(body))), c) {
      ListedIsInRanges(body, c);
    }
  }

  /** `[\\c]` lists a backslash; the emitted class makes it an escape, and lists `c` only. */
  lemma EscapedBackslashIsLost(c: char, rest: string)
    requires R.Punctuation(c) && c !in {'\\', ']', '-'}
    ensures var inner := ['\\', '\\', c];
            && ClassAccepts(inner, '\\')
            && R.ParseClass(ClassText(inner) + "]" + rest) == Some((R.Literal(c), rest))
            && !R.Accepts(R.Literal(c), '\\')
  {
    var inner := ['\\', '\\', c];
    assert inner[2..] == [c] && [c][1..] == "";
    assert Unescaped([c]) == [c];
    assert ClassText(inner) == ['\\', c];
    EscapeParses(c, rest);
    SetsAgree(Literal(c), '\\');
  }

  lemma EscapeParses(c: char, rest: string)
    requires R.Punctuation(c)
    ensures R.ParseClass(['\\', c] + "]" + rest) == Some((R.Literal(c), rest))
  {
    var s, close := ['\\', c] + "]" + rest, "]" + rest;
    assert s[2..] == close && close[1..] == rest;
    assert R.ClassItems(close, false) == Some(([], rest));
    assert R.ClassChar(s) == Some((c, close));
    assert [(c, c)] + [] == [(c, c)];
    assert R.ClassItems(s, true) == Some(([(c, c)], rest));
  }

  /** `[\\d]` and its like list a backslash and a letter; the emitted class is a set of characters. */
  lemma EscapedBackslashMakesSet(c: char, rest: string)
    requires R.Perl(c).Some?
    ensures var inner := ['\\', '\\', c];
            && ClassAccepts(inner, '\\') && ClassAccepts(inner, c)
            && R.ParseClass(ClassText(inner) + "]" + rest) == Some((R.OneOf(false, R.Perl(c).value), rest))
  {
    var inner := ['\\', '\\', c];
    assert inner[2..] == [c] && [c][1..] == "";
    assert Unescaped([c]) == [c];
    assert ClassText(inner) == ['\\', c];
    assert Listed([c], c);
    PerlParses(c, rest);
  }

  lemma PerlParses(c: char, rest: string)
    requires R.Perl(c).Some?
    ensures R.ParseClass(['\\', c] + "]" + rest) == Some((R.OneOf(false, R.Perl(c).value), rest))
  {
    var s, close := ['\\', c] + "]" + rest, "]" + rest;
    assert s[2..] == close && close[1..] == rest;
    assert R.ClassItems(close, false) == Some(([], rest));
    assert R.Perl(c).value + [] == R.Perl(c).value;
    assert R.ClassItems(s, true) == Some((R.Perl(c).value, rest));
  }

  /** A text whose backslashes all escape something is read member by member whatever follows. */
  predicate Paired(x: string) { '\\' !in Unescaped(x) }

  lemma MemberConcat(x: string, y: string)
    requires x != "" && Paired(x)
    ensures Member(x + y) == Member(x) && (x + y)[Member(x).1..] == x[Member(x).1..] + y
    ensures Paired(x[Member(x).1..])
  {
    UnescapedMember(x);
    assert x[0] == '\\' ==> |x| > 1;
  }

  lemma {:induction false} UnescapedConcat(x: string, y: string)
    requires Paired(x)
    ensures Unescaped(x + y) == Unescaped(x) + Unescaped(y)
    decreases |x|
  {
    if x == "" {
      assert x + y == y;
    } else {
      var n := Member(x).1;
      MemberConcat(x, y);
      UnescapedMember(x);
      UnescapedMember(x + y);
      UnescapedConcat(x[n..], y);
      Assoc([Member(x).0], Unescaped(x[n..]), Unescaped(y));
    }
  }

  lemma ListedStep(body: string, c: char)
    requires body != "" && !(|body[Member(body).1..]| >= 2 && body[Member(body).1..][0] == '-')
    ensures Listed(body[Member(body).1..], c) ==> Listed(body, c)
  {
  }

  lemma ListedRangeStep(body: string, c: char)
    requires body != ""
    requires var rest := body[Member(body).1..]; |rest| >= 2 && rest[0] == '-'
    ensures var rest := body[Member(body).1..]; Listed(rest[1..][Member(rest[1..]).1..], c) ==> Listed(body, c)
  {
    var rest := body[Member(body).1..];
    var m := Member(rest[1..]).1;
    assert rest[1..][m..] == rest[1 + m..];
  }

  /** A character between two parts of a body is listed, unless a dash makes it part of a range. */
  lemma {:induction false} ListedBetween(x: string, c: char, y: string)
    requires Paired(x) && (x != "" ==> x[|x| - 1] != '-') && (y != "" ==> y[0] != '-')
    ensures Listed(x + (['\\', c] + y), c)
    decreases |x|
  {
    var tail := ['\\', c] + y;
    if x == "" {
      assert x + tail == tail && tail[2..] == y;
    } else {
      MemberConcat(x, tail);
      var z := x[Member(x).1..];
      if z != "" && z[0] == '-' {
        MemberConcat(z, tail);
        var w := z[1..];
        assert w != "";
        MemberConcat(w, tail);
        ListedBetween(w[Member(w).1..], c, y);
        assert (z + tail)[1..] == w + tail;
        ListedRangeStep(x + tail, c);
      } else {
        ListedBetween(z, c, y);
        ListedStep(x + tail, c);
      }
    }
  }

  /** `[x\]y]` lists a bracket; the emitted class ends before it, and the rest of the class is
      left to be read as regular expression. */
  lemma EscapedBracketCloses(x: string, y: string, rest: string)
    requires PlainClass(x) && BodyOf(x) == x && x[0] != '^' && x[|x| - 1] != '-' && (y != "" ==> y[0] != '-')
    ensures var inner := x + ("\\]" + y);
            && ClassAccepts(inner, ']')
            && R.ParseClass(ClassText(inner) + "]" + rest) ==
               Some((R.OneOf(false, Ranges(Unescaped(x))), Unescaped(y) + "]" + rest))
  {
    var inner := x + ("\\]" + y);
    var u, v := Unescaped(x), Unescaped(y);
    assert ("\\]" + y)[2..] == y && Unescaped("\\]" + y) == "]" + v;
    UnescapedConcat(x, "\\]" + y);
    assert inner[0] == x[0] && ClassText(inner) == u + ("]" + v);
    BracketText(u, v, rest);
    OrdinaryClassParses(x, v + "]" + rest);
    ListedBetween(x, ']', y);
    assert ['\\', ']'] + y == "\\]" + y;
  }

  lemma BracketText(u: string, v: string, rest: string)
    ensures u + ("]" + v) + "]" + rest == u + "]" + (v + "]" + rest)
  {
  }
}
