/** When the text emitted for a pattern has a single top-level alternative. Emitted text is
    quoted, except inside classes, whose escapes are dropped: an escaped `]` closes the class
    early, and a `|` that the class lists after it is read as alternation. Without such a
    class there is one alternative, whatever else the classes contain. */
module GlobAlternatives {
  import opened Options
  import opened Strings
  import opened GlobPattern
  import opened GlobCompile
  import R = GoRegexp

  function Rest(ts: seq<Token>): string { EmitAll(ts) + "$" }

  lemma RestStep(ts: seq<Token>)
    requires ts != []
    ensures Rest(ts) == Emit(ts[0]) + Rest(ts[1..])
    ensures Rest(ts) != "" && Rest(ts)[0] != '|' && !R.StartsQuantifier(Rest(ts[1..]))
  {
    Assoc(Emit(ts[0]), EmitAll(ts[1..]), "$");
    EmittedStart(ts[0], Rest(ts[1..]));
    RestIsNoQuantifier(ts[1..]);
  }

  /** No bar stands after a closing bracket. */
  predicate NoBarAfterBracket(text: string)
  {
    forall a, b :: 0 <= a < b < |text| ==> !(text[a] == ']' && text[b] == '|')
  }

  predicate Contained(tok: Token) { tok.Class? ==> NoBarAfterBracket(ClassText(tok.inner)) }

  predicate AllContained(ts: seq<Token>) { forall k :: 0 <= k < |ts| ==> Contained(ts[k]) }

  /** No class of the pattern lists a `]` and, after it, a `|`. */
  predicate NoInjection(p: string) { AllContained(Tokens(p)) }

  // ----- Where a class ends -----

  /** What follows the first `]` that no backslash escapes. */
  function SkipClass(s: string): Option<string>
    decreases |s|
  {
    if s == "" then None
    else if s[0] == ']' then Some(s[1..])
    else if s[0] == '\\' then if |s| == 1 then None else SkipClass(s[2..])
    else SkipClass(s[1..])
  }

  /** The members of a class end there. */
  lemma {:induction false} ItemsSkip(s: string, first: bool)
    requires R.ClassItems(s, first).Some?
    ensures SkipClass(if first && s[0] == ']' then s[1..] else s) == Some(R.ClassItems(s, first).value.1)
    decreases |s|
  {
    if |s| > 1 && s[0] == '\\' && R.Perl(s[1]).Some? {
      ItemsSkip(s[2..], false);
    } else if s[0] != ']' || first {
      var rest := R.ClassChar(s).value.1;
      if |rest| >= 2 && rest[0] == '-' && rest[1] != ']' {
        var more := R.ClassChar(rest[1..]).value.1;
        ItemsSkip(more, false);
        assert SkipClass(rest) == SkipClass(rest[1..]);
        assert SkipClass(rest[1..]) == SkipClass(more);
      } else {
        ItemsSkip(rest, false);
      }
    }
  }

  /** Through some text and a closing bracket: it ends inside, at the bracket, or later. */
  lemma {:induction false} SkipText(ct: string, r: string)
    ensures var s := SkipClass(ct + ("]" + r));
            s == Some(r) || s == SkipClass(r) || exists a :: 0 <= a < |ct| && ct[a] == ']' && s == Some(ct[a + 1..] + ("]" + r))
    decreases |ct|
  {
    var close := "]" + r;
    var s := ct + close;
    assert close[1..] == r;
    if ct == "" {
      assert s == close;
    } else if ct[0] == ']' {
      assert s[1..] == ct[1..] + close;
    } else if ct == "\\" {
      assert s[2..] == r;
    } else {
      var n := if ct[0] == '\\' then 2 else 1;
      assert s[n..] == ct[n..] + close;
      SkipText(ct[n..], r);
      if a :| 0 <= a < |ct[n..]| && ct[n..][a] == ']' && SkipClass(s[n..]) == Some(ct[n..][a + 1..] + close) {
        assert ct[a + n] == ']' && ct[a + n + 1..] == ct[n..][a + 1..];
      }
    }
  }

  lemma SkipOne(c: char, r: string)
    requires c != ']' && c != '\\'
    ensures SkipClass([c] + r) == SkipClass(r)
  {
    assert ([c] + r)[1..] == r;
  }

  lemma SkipQuoted(c: char, r: string)
    ensures SkipClass(QuoteMeta(c) + r) == SkipClass(r)
  {
    var s := QuoteMeta(c) + r;
    if R.Meta(c) {
      assert s[2..] == r;
    } else {
      assert s[1..] == r;
    }
  }

  lemma {:induction false} SkipWord(w: string, r: string)
    ensures SkipClass(QuoteWord(w) + r) == SkipClass(r)
    decreases |w|
  {
    if w == "" {
      assert QuoteWord(w) + r == r;
    } else {
      Assoc(QuoteMeta(w[0]), QuoteWord(w[1..]), r);
      SkipQuoted(w[0], QuoteWord(w[1..]) + r);
      SkipWord(w[1..], r);
    }
  }

  lemma {:induction false} SkipWords(words: seq<string>, r: string)
    ensures SkipClass(JoinWords(words) + r) == SkipClass(r)
    decreases |words|
  {
    if words == [] {
      assert JoinWords(words) + r == r;
    } else if |words| == 1 {
      SkipWord(words[0], r);
    } else {
      var more := JoinWords(words[1..]) + r;
      Assoc(QuoteWord(words[0]) + "|", JoinWords(words[1..]), r);
      Assoc(QuoteWord(words[0]), "|", more);
      SkipWord(words[0], "|" + more);
      SkipOne('|', more);
      SkipWords(words[1..], r);
    }
  }

  lemma SkipGroup(words: seq<string>, r: string)
    ensures SkipClass(Emit(Group(words)) + r) == SkipClass(r)
  {
    var close := ")" + r;
    var body := JoinWords(words) + close;
    assert Emit(Group(words)) + r == "(" + ("?" + (":" + body));
    SkipOne('(', "?" + (":" + body));
    SkipOne('?', ":" + body);
    SkipOne(':', body);
    SkipWords(words, close);
    SkipOne(')', r);
  }

  // ----- Positions in emitted text -----

  /** What is left of a class that was closed early: no bar, and its own bracket at the end. */
  predicate Junk(x: string) { x != "" && x[|x| - 1] == ']' && '|' !in x }

  /** Between tokens, possibly with such a remainder in front. */
  ghost predicate Between(s: string, ts: seq<Token>)
  {
    exists n, x :: 0 <= n <= |ts| && Stands(s, x, ts[n..])
  }

  predicate Stands(s: string, x: string, ts: seq<Token>) { (x == "" || Junk(x)) && s == x + Rest(ts) }

  /** The same, possibly before the star of a token. */
  ghost predicate Lands(s: string, ts: seq<Token>)
  {
    Between(s, ts) || (s != "" && s[0] == '*' && Between(s[1..], ts))
  }

  lemma BetweenHere(s: string, x: string, ts: seq<Token>)
    requires Stands(s, x, ts)
    ensures Between(s, ts)
  {
    assert ts[0..] == ts;
    assert Stands(s, x, ts[0..]);
  }

  lemma BetweenLater(s: string, ts: seq<Token>, n: nat)
    requires n <= |ts|
    ensures Between(s, ts[n..]) ==> Between(s, ts)
    ensures Lands(s, ts[n..]) ==> Lands(s, ts)
  {
    forall r | Between(r, ts[n..]) ensures Between(r, ts) {
      var m, x :| 0 <= m <= |ts[n..]| && Stands(r, x, ts[n..][m..]);
      assert ts[n..][m..] == ts[n + m..];
      assert Stands(r, x, ts[n + m..]);
    }
  }

  lemma JunkTail(x: string, n: nat)
    requires Junk(x) && n <= |x|
    ensures x[n..] == "" || Junk(x[n..])
  {
  }

  lemma JunkLands(x: string, n: nat, ts: seq<Token>)
    requires (x == "" || Junk(x)) && n <= |x|
    ensures Between(x[n..] + Rest(ts), ts)
  {
    if x != "" { JunkTail(x, n); }
    BetweenHere(x[n..] + Rest(ts), x[n..], ts);
  }

  /** A class that starts in emitted text ends between tokens. */
  lemma {:induction false} SkipTokens(ts: seq<Token>)
    requires AllContained(ts) && SkipClass(Rest(ts)).Some?
    ensures Lands(SkipClass(Rest(ts)).value, ts)
    decreases |ts|
  {
    if ts == [] {
      SkipOne('$', "");
      assert false;
    } else {
      RestStep(ts);
      var tail := ts[1..];
      var r := Rest(tail);
      if SkipClass(Rest(ts)) == SkipClass(r) {
        SkipTokens(tail);
        BetweenLater(SkipClass(r).value, ts, 1);
      } else {
        SkipToken(ts[0], tail);
        BetweenLater(SkipClass(Rest(ts)).value, ts, 1);
      }
    }
  }

  lemma SkipToken(tok: Token, tail: seq<Token>)
    requires Contained(tok) && SkipClass(Emit(tok) + Rest(tail)).Some?
    ensures var s := SkipClass(Emit(tok) + Rest(tail));
            s == SkipClass(Rest(tail)) || Lands(s.value, tail)
  {
    var r := Rest(tail);
    match tok
    case Literal(c) => SkipQuoted(c, r);
    case DoubleStar => SkipDoubleStar(r);
    case Star => SkipSlashFree("*" + r); StarLands(tail);
    case AnyChar => SkipSlashFree(r); BetweenRest(tail);
    case Group(words) => SkipGroup(words, r);
    case Class(inner) =>
      ClassTokenText(inner, r);
      Assoc(ClassText(inner), "]", r);
      SkipOne('[', ClassText(inner) + ("]" + r));
      SkipFrom(ClassText(inner), tail);
  }

  lemma SkipDoubleStar(r: string)
    ensures SkipClass(".*" + r) == SkipClass(r)
  {
    assert ".*" + r == "." + ("*" + r);
    SkipOne('.', "*" + r);
    SkipOne('*', r);
  }

  lemma SkipSlashFree(r: string)
    ensures SkipClass("[^/]" + r) == Some(r) && "[^/]*" + r == "[^/]" + ("*" + r)
  {
    var close := "]" + r;
    assert "[^/]" + r == "[" + ("^" + ("/" + close)) && close[1..] == r;
    SkipOne('[', "^" + ("/" + close));
    SkipOne('^', "/" + close);
    SkipOne('/', close);
  }

  lemma StarLands(tail: seq<Token>)
    ensures Lands("*" + Rest(tail), tail)
    ensures "[^/]*" + Rest(tail) == "[^/]" + ("*" + Rest(tail))
  {
    BetweenRest(tail);
    assert ("*" + Rest(tail))[1..] == Rest(tail);
  }

  lemma BetweenRest(ts: seq<Token>)
    ensures Between(Rest(ts), ts)
  {
    assert "" + Rest(ts) == Rest(ts);
    BetweenHere(Rest(ts), "", ts);
  }

  lemma SkipFrom(ct: string, tail: seq<Token>)
    requires NoBarAfterBracket(ct)
    ensures var s := SkipClass(ct + ("]" + Rest(tail)));
            s == SkipClass(Rest(tail)) || (s.Some? && Lands(s.value, tail))
  {
    var r := Rest(tail);
    SkipText(ct, r);
    BetweenRest(tail);
    if a :| 0 <= a < |ct| && ct[a] == ']' && SkipClass(ct + ("]" + r)) == Some(ct[a + 1..] + ("]" + r)) {
      var x := ct[a + 1..] + "]";
      assert forall b :: a < b < |ct| ==> ct[b] != '|';
      assert Junk(x);
      Assoc(ct[a + 1..], "]", r);
      BetweenHere(x + r, x, tail);
    }
  }

  lemma AfterSkip(ct: string, ts: seq<Token>, rest: string)
    requires NoBarAfterBracket(ct) && AllContained(ts) && SkipClass(ct + ("]" + Rest(ts))) == Some(rest)
    ensures Lands(rest, ts)
  {
    SkipFrom(ct, ts);
    if SkipClass(Rest(ts)) == Some(rest) {
      SkipTokens(ts);
    }
  }

  function DropFirst(s: string, c: char): string { if s != "" && s[0] == c then s[1..] else s }

  /** A class ends at the first unescaped `]` after its negation and a `]` in first position. */
  lemma ClassSkip(s: string)
    requires R.ParseClass(s).Some?
    ensures SkipClass(DropFirst(DropFirst(s, '^'), ']')) == Some(R.ParseClass(s).value.1)
  {
    ItemsSkip(DropFirst(s, '^'), true);
  }

  lemma DropFromText(ct: string, r: string, c: char)
    requires ct != ""
    ensures DropFirst(ct + ("]" + r), c) == DropFirst(ct, c) + ("]" + r)
  {
    assert (ct + ("]" + r))[1..] == ct[1..] + ("]" + r);
  }

  lemma SkipLands(ct: string, ts: seq<Token>, rest: string)
    requires NoBarAfterBracket(ct) && AllContained(ts)
    requires SkipClass(DropFirst(ct + ("]" + Rest(ts)), ']')) == Some(rest)
    ensures Lands(rest, ts)
  {
    if ct == "" {
      assert DropFirst(ct + ("]" + Rest(ts)), ']') == Rest(ts);
      SkipTokens(ts);
    } else {
      DropFromText(ct, Rest(ts), ']');
      AfterSkip(DropFirst(ct, ']'), ts, rest);
    }
  }

  /** A class whose text starts with `ct` ends between tokens. */
  lemma ClassLands(ct: string, ts: seq<Token>, s: string, rest: string)
    requires NoBarAfterBracket(ct) && AllContained(ts) && s == ct + ("]" + Rest(ts))
    requires SkipClass(DropFirst(DropFirst(s, '^'), ']')) == Some(rest)
    ensures Lands(rest, ts)
  {
    if ct == "" {
      assert s[0] == ']';
      SkipLands(ct, ts, rest);
    } else {
      DropFromText(ct, Rest(ts), '^');
      SkipLands(DropFirst(ct, '^'), ts, rest);
    }
  }

  lemma StarInJunk(rest: string, x: string, ts: seq<Token>)
    requires Stands(rest, x, ts) && rest != "" && rest[0] == '*'
    ensures x != "" && Stands(rest[1..], x[1..], ts)
  {
    if x == "" {
      assert rest == Rest(ts);
      RestIsNoQuantifier(ts);
      assert false;
    } else {
      JunkTail(x, 1);
      assert rest[1..] == x[1..] + Rest(ts);
    }
  }

  /** A piece that a quantifier may follow. */
  lemma QuantifierLands(rest: string, ts: seq<Token>)
    requires Lands(rest, ts)
    ensures !R.StartsQuantifier(rest) ==> Between(rest, ts)
    ensures R.StartsQuantifier(rest) && rest[0] == '*' ==> Between(rest[1..], ts)
  {
    if rest != "" && rest[0] == '*' && Between(rest, ts) {
      var n, x :| 0 <= n <= |ts| && Stands(rest, x, ts[n..]);
      StarInJunk(rest, x, ts[n..]);
    }
  }

  /** Whatever set is read, reading goes on between tokens. */
  lemma SetLands(s: string, ts: seq<Token>)
    requires s != "" && s[0] !in {'^', '$', '('} && R.NextPiece(s).Some?
    requires R.ParseSet(s).Some? ==> Lands(R.ParseSet(s).value.1, ts)
    ensures Between(R.NextPiece(s).value.1, ts)
  {
    QuantifierLands(R.ParseSet(s).value.1, ts);
  }

  lemma NextAtToken(ts: seq<Token>)
    requires ts != [] && AllContained(ts) && GroupsNonEmpty(ts) && R.NextPiece(Rest(ts)).Some?
    ensures Between(R.NextPiece(Rest(ts)).value.1, ts)
  {
    RestStep(ts);
    var tok, tail := ts[0], ts[1..];
    if tok.Class? {
      var s := Rest(ts);
      ClassTokenText(tok.inner, Rest(tail));
      Assoc(ClassText(tok.inner), "]", Rest(tail));
      assert s[0] == '[' && s[1..] == ClassText(tok.inner) + ("]" + Rest(tail));
      ClassSkip(s[1..]);
      ClassLands(ClassText(tok.inner), tail, s[1..], R.ParseClass(s[1..]).value.1);
      SetLands(s, tail);
    } else {
      TokenParses(tok, Rest(tail));
      BetweenRest(tail);
    }
    BetweenLater(R.NextPiece(Rest(ts)).value.1, ts, 1);
  }

  // ----- What a class closed early leaves behind -----

  lemma QuotedNeedsParenthesis(c: char, r: string)
    requires R.ParseWords(r).None?
    ensures R.ParseWords(QuoteMeta(c) + r).None?
  {
    var s := QuoteMeta(c) + r;
    if R.Meta(c) {
      assert s[2..] == r;
    } else {
      assert s[1..] == r;
    }
  }

  lemma OperatorEndsWords(s: string)
    requires s != "" && s[0] in {'.', '[', '(', '$'}
    ensures R.ParseWords(s).None?
  {
  }

  lemma {:induction false} WordsNeedParenthesis(ts: seq<Token>)
    ensures R.ParseWords(Rest(ts)).None?
    decreases |ts|
  {
    if ts == [] {
      OperatorEndsWords(Rest(ts));
    } else {
      RestStep(ts);
      if ts[0].Literal? {
        WordsNeedParenthesis(ts[1..]);
        QuotedNeedsParenthesis(ts[0].c, Rest(ts[1..]));
      } else {
        OperatorEndsWords(Rest(ts));
      }
    }
  }

  lemma WordStep(s: string)
    requires s != "" && s[0] != ')' && s[0] != '|' && R.ParseWords(s).Some?
    ensures var n := if s[0] == '\\' then 2 else 1;
            |s| >= n && R.ParseWords(s[n..]).Some? && R.ParseWords(s[n..]).value.1 == R.ParseWords(s).value.1
  {
  }

  /** If `r` closes no group, a group that ends ends within the remainder before it. */
  lemma {:induction false} WordsWithin(x: string, r: string) returns (n: nat)
    requires (x == "" || Junk(x)) && R.ParseWords(r).None? && R.ParseWords(x + r).Some?
    ensures n <= |x| && R.ParseWords(x + r).value.1 == x[n..] + r
    decreases |x|
  {
    var s := x + r;
    assert x == "" ==> s == r;
    if x[0] == ')' {
      assert s[1..] == x[1..] + r;
      n := 1;
    } else {
      WordStep(s);
      var k := if x[0] == '\\' then 2 else 1;
      JunkTail(x, k);
      assert s[k..] == x[k..] + r;
      var m := WordsWithin(x[k..], r);
      assert x[k..][m..] == x[k + m..];
      n := k + m;
    }
  }

  lemma GroupNext(s: string)
    requires s != "" && s[0] == '(' && R.NextPiece(s).Some?
    ensures |s| >= 3 && s[1] == '?' && s[2] == ':'
    ensures R.ParseWords(s[3..]).Some? && R.NextPiece(s).value.1 == R.ParseWords(s[3..]).value.1
  {
  }

  lemma NextAtGroup(x: string, ts: seq<Token>)
    requires Junk(x) && x[0] == '(' && R.NextPiece(x + Rest(ts)).Some?
    ensures Between(R.NextPiece(x + Rest(ts)).value.1, ts)
  {
    var s, r := x + Rest(ts), Rest(ts);
    GroupNext(s);
    assert s[0] == x[0] && |x| > 3;
    var y := x[3..];
    JunkTail(x, 3);
    assert s[3..] == y + r;
    WordsNeedParenthesis(ts);
    var n := WordsWithin(y, r);
    JunkLands(y, n, ts);
  }

  lemma NextAtClass(x: string, ts: seq<Token>)
    requires Junk(x) && x[0] == '[' && AllContained(ts) && R.NextPiece(x + Rest(ts)).Some?
    ensures Between(R.NextPiece(x + Rest(ts)).value.1, ts)
  {
    var s := x + Rest(ts);
    var ct := x[1..|x| - 1];
    assert s[0] == '[' && s[1..] == ct + ("]" + Rest(ts));
    ClassSkip(s[1..]);
    ClassLands(ct, ts, s[1..], R.ParseClass(s[1..]).value.1);
    SetLands(s, ts);
  }

  /** Outside classes and groups a piece takes one character or one escape, and perhaps a star. */
  lemma SingleNext(s: string)
    requires s != "" && s[0] != '[' && s[0] != '(' && R.NextPiece(s).Some?
    ensures var n := if s[0] == '\\' then 2 else 1;
            && n <= |s|
            && (R.NextPiece(s).value.1 == s[n..]
                || (s[n..] != "" && s[n..][0] == '*' && R.NextPiece(s).value.1 == s[n..][1..]))
  {
  }

  lemma CharLands(x: string, n: nat, ts: seq<Token>)
    requires Junk(x) && n <= |x|
    ensures var y := (x + Rest(ts))[n..];
            Between(y, ts) && (y != "" && y[0] == '*' ==> Between(y[1..], ts))
  {
    var y := x[n..] + Rest(ts);
    assert (x + Rest(ts))[n..] == y;
    JunkLands(x, n, ts);
    QuantifierLands(y, ts);
  }

  lemma NextAtChar(x: string, ts: seq<Token>)
    requires Junk(x) && x[0] != '[' && x[0] != '(' && R.NextPiece(x + Rest(ts)).Some?
    ensures Between(R.NextPiece(x + Rest(ts)).value.1, ts)
  {
    var s := x + Rest(ts);
    assert s[0] == x[0];
    SingleNext(s);
    CharLands(x, if x[0] == '\\' then 2 else 1, ts);
  }

  lemma NextAtJunk(x: string, ts: seq<Token>)
    requires Junk(x) && AllContained(ts) && R.NextPiece(x + Rest(ts)).Some?
    ensures Between(R.NextPiece(x + Rest(ts)).value.1, ts)
  {
    if x[0] == '(' {
      NextAtGroup(x, ts);
    } else if x[0] == '[' {
      NextAtClass(x, ts);
    } else {
      NextAtChar(x, ts);
    }
  }

  // ----- One alternative -----

  lemma NextBetween(s: string, ts: seq<Token>)
    requires Between(s, ts) && AllContained(ts) && GroupsNonEmpty(ts) && s != "" && R.NextPiece(s).Some?
    ensures R.NextPiece(s).value.1 == "" || Between(R.NextPiece(s).value.1, ts)
  {
    var n, x :| 0 <= n <= |ts| && Stands(s, x, ts[n..]);
    var tail := ts[n..];
    if x != "" {
      NextAtJunk(x, tail);
      BetweenLater(R.NextPiece(s).value.1, ts, n);
    } else {
      assert s == Rest(tail);
      if tail != [] {
        NextAtToken(tail);
        BetweenLater(R.NextPiece(s).value.1, ts, n);
      } else {
        assert s == "$" && s[1..] == "";
      }
    }
  }

  lemma NoBarBetween(s: string, ts: seq<Token>)
    requires Between(s, ts) && s != ""
    ensures s[0] != '|'
  {
    var n, x :| 0 <= n <= |ts| && Stands(s, x, ts[n..]);
    if x != "" {
      assert s[0] == x[0];
    } else {
      assert s == Rest(ts[n..]);
      if ts[n..] != [] { RestStep(ts[n..]); }
    }
  }

  lemma {:induction false} OneFrom(s: string, ts: seq<Token>)
    requires (s == "" || Between(s, ts)) && AllContained(ts) && GroupsNonEmpty(ts) && R.Parse(s).Some?
    ensures |R.Parse(s).value| == 1
    decreases |s|
  {
    if s != "" {
      NoBarBetween(s, ts);
      NextBetween(s, ts);
      OneFrom(R.NextPiece(s).value.1, ts);
    }
  }

  /** A pattern no class of which lists a `]` before a `|` compiles, if at all, to one alternative. */
  lemma OneAlternative(p: string)
    requires NoInjection(p) && R.Parse(RegexText(p)).Some?
    ensures |R.Parse(RegexText(p)).value| == 1
  {
    var ts := Tokens(p);
    BeginParses(p);
    TokensHaveWords(p, 0);
    BetweenRest(ts);
    OneFrom(Rest(ts), ts);
  }
}
