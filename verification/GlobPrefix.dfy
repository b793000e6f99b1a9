/** The literal-prefix extractor, which bounds index scans, and the regular expression that
    the same pattern compiles to. The prefix is judged against the parsed text, for every
    pattern: its first alternative always starts with the pattern's literals, but a class may
    inject further alternatives, which need not. */
module GlobPrefix {
  import opened Options
  import opened Strings
  import opened GlobPattern
  import opened GlobCompile
  import opened GlobAlternatives
  import R = GoRegexp

  // ----- The literal prefix -----

  predicate Metachar(c: char) { c in {'*', '?', '[', '{'} }

  /** Characters up to the first metacharacter, every backslash dropped unless trailing. */
  function PrefixFrom(p: string, i: nat): string
    decreases |p| - i
  {
    if i >= |p| || Metachar(p[i]) then ""
    else if p[i] == '\\' && i + 1 < |p| then [p[i + 1]] + PrefixFrom(p, i + 2)
    else [p[i]] + PrefixFrom(p, i + 1)
  }

  method LiteralPrefix(pattern: string) returns (b: string)
    ensures b == PrefixFrom(pattern, 0)
  {
    b := "";
    var i := 0;
    assert "" + PrefixFrom(pattern, 0) == PrefixFrom(pattern, 0);
    while i < |pattern|
      invariant b + PrefixFrom(pattern, i) == PrefixFrom(pattern, 0)
      decreases |pattern| - i
    {
      var ch := pattern[i];
      if ch in {'*', '?', '[', '{'} {
        assert b + "" == b;
        return b;
      }
      if ch == '\\' && i + 1 < |pattern| {
        Assoc(b, [pattern[i + 1]], PrefixFrom(pattern, i + 2));
        i := i + 1;
        b := b + [pattern[i]];
      } else {
        Assoc(b, [ch], PrefixFrom(pattern, i + 1));
        b := b + [ch];
      }
      i := i + 1;
    }
    assert b + "" == b;
  }

  /** Before the first metacharacter, every backslash is trailing or precedes an escapable character. */
  predicate CleanFrom(p: string, i: nat)
    decreases |p| - i
  {
    if i >= |p| || Metachar(p[i]) then true
    else if p[i] == '\\' && i + 1 < |p| then Escapable(p[i + 1]) && CleanFrom(p, i + 2)
    else CleanFrom(p, i + 1)
  }

  /** Reading a pattern from inside is reading the rest of it. */
  lemma {:induction false} PrefixShift(a: string, p: string, i: nat)
    ensures PrefixFrom(a + p, |a| + i) == PrefixFrom(p, i)
    decreases |p| - i
  {
    if i < |p| {
      assert (a + p)[|a| + i] == p[i];
      if i + 1 < |p| { assert (a + p)[|a| + i + 1] == p[i + 1]; }
      PrefixShift(a, p, i + 1);
      PrefixShift(a, p, i + 2);
    }
  }

  lemma {:induction false} CleanShift(a: string, p: string, i: nat)
    ensures CleanFrom(a + p, |a| + i) <==> CleanFrom(p, i)
    decreases |p| - i
  {
    if i < |p| {
      assert (a + p)[|a| + i] == p[i];
      if i + 1 < |p| { assert (a + p)[|a| + i + 1] == p[i + 1]; }
      CleanShift(a, p, i + 1);
      CleanShift(a, p, i + 2);
    }
  }

  /** The prefix ends at a metacharacter, holds every other character, and an escaped one without
      its backslash, whatever it is. */
  lemma PrefixLaw(c: char, p: string)
    ensures PrefixFrom("", 0) == "" && PrefixFrom("\\", 0) == "\\"
    ensures c in {'*', '?', '[', '{'} ==> PrefixFrom([c] + p, 0) == ""
    ensures c !in {'*', '?', '[', '{', '\\'} ==> PrefixFrom([c] + p, 0) == [c] + PrefixFrom(p, 0)
    ensures PrefixFrom(['\\', c] + p, 0) == [c] + PrefixFrom(p, 0)
  {
    PrefixShift([c], p, 0);
    PrefixShift(['\\', c], p, 0);
    assert PrefixFrom("\\", 1) == "";
  }

  /** It is clean unless it drops a backslash that the translator keeps. */
  lemma CleanLaw(c: char, p: string)
    ensures CleanFrom("", 0) && CleanFrom("\\", 0)
    ensures c in {'*', '?', '[', '{'} ==> CleanFrom([c] + p, 0)
    ensures c !in {'*', '?', '[', '{', '\\'} ==> (CleanFrom([c] + p, 0) <==> CleanFrom(p, 0))
    ensures CleanFrom(['\\', c] + p, 0) <==> c in {'*', '?', '[', ']', '{', '}', '\\'} && CleanFrom(p, 0)
  {
    CleanShift([c], p, 0);
    CleanShift(['\\', c], p, 0);
    assert CleanFrom("\\", 1);
  }

  lemma PrefixCons(c: char, rest: string, t: string, j: nat)
    requires j < |t|
    ensures [c] + rest <= t[j..] <==> c == t[j] && rest <= t[j + 1..]
  {
    var a, b := [c] + rest, t[j..];
    assert b[1..] == t[j + 1..] && a[1..] == rest;
    if a <= b {
      assert a == b[..|a|];
      assert rest == b[1..][..|rest|];
    }
    if c == t[j] && rest <= t[j + 1..] {
      assert rest == t[j + 1..][..|rest|];
      assert a == b[..|a|];
    }
  }

  /** The literal tokens before the first metacharacter, as the translator reads them. */
  function Lead(p: string, i: nat): string
    requires i <= |p|
    decreases |p| - i
  {
    if i == |p| || Metachar(p[i]) then "" else [Head(p, i).0.c] + Lead(p, Head(p, i).1)
  }

  /** A text that starts with these literals starts with the prefix exactly when it is clean. */
  lemma {:induction false} LeadDecides(p: string, i: nat, t: string, j: nat)
    requires i <= |p| && j <= |t| && Lead(p, i) <= t[j..]
    ensures PrefixFrom(p, i) <= t[j..] <==> CleanFrom(p, i)
    decreases |p| - i
  {
    if i < |p| && !Metachar(p[i]) {
      var r := Head(p, i);
      PrefixCons(r.0.c, Lead(p, r.1), t, j);
      if p[i] == '\\' && i + 1 < |p| {
        PrefixCons(p[i + 1], PrefixFrom(p, i + 2), t, j);
        if Escapable(p[i + 1]) {
          LeadDecides(p, i + 2, t, j + 1);
        }
      } else {
        PrefixCons(p[i], PrefixFrom(p, i + 1), t, j);
        LeadDecides(p, i + 1, t, j + 1);
      }
    }
  }

  lemma LiteralSpan(c: char, ts: seq<Token>, t: string, j: nat)
    requires j <= |t| && MatchesFrom([Literal(c)] + ts, t, j)
    ensures j < |t| && t[j] == c && MatchesFrom(ts, t, j + 1)
  {
    var all := [Literal(c)] + ts;
    assert all[1..] == ts;
    var k :| j <= k <= |t| && Spans(all[0], t, j, k) && MatchesFrom(all[1..], t, k);
  }

  lemma {:induction false} GlobLeads(p: string, i: nat, t: string, j: nat)
    requires i <= |p| && j <= |t| && MatchesFrom(TokensFrom(p, i), t, j)
    ensures Lead(p, i) <= t[j..]
    decreases |p| - i
  {
    if i < |p| && !Metachar(p[i]) {
      var r := Head(p, i);
      LiteralSpan(r.0.c, TokensFrom(p, r.1), t, j);
      GlobLeads(p, r.1, t, j + 1);
      PrefixCons(r.0.c, Lead(p, r.1), t, j);
    }
  }

  /** A text the glob matches starts with the literal prefix exactly when the prefix is clean. */
  lemma PrefixIff(p: string, t: string)
    requires GlobMatches(p, t)
    ensures PrefixFrom(p, 0) <= t <==> CleanFrom(p, 0)
  {
    GlobLeads(p, 0, t, 0);
    LeadDecides(p, 0, t, 0);
    assert t[0..] == t;
  }

  // ----- The first alternative -----

  /** A literal at the head of the tokens is the head of the first alternative. */
  lemma {:induction false} LiteralFirst(c: char, ts: seq<Token>, t: string, j: nat)
    requires j <= |t| && R.Parse(Rest([Literal(c)] + ts)).Some?
    requires R.MatchesAt(R.Parse(Rest([Literal(c)] + ts)).value[0], t, j)
    ensures j < |t| && t[j] == c
    ensures R.Parse(Rest(ts)).Some? && R.MatchesAt(R.Parse(Rest(ts)).value[0], t, j + 1)
  {
    var all := [Literal(c)] + ts;
    RestStep(all);
    assert all[1..] == ts;
    LiteralParses(c, Rest(ts));
    FirstPiece(Rest(all), R.Single(R.Literal(c)), Rest(ts));
    LiteralPiece(c, R.Parse(Rest(ts)).value[0], t, j);
  }

  lemma FirstPiece(s: string, piece: R.Piece, rest: string)
    requires s != "" && s[0] != '|' && R.NextPiece(s) == Some((piece, rest)) && R.Parse(s).Some?
    ensures R.Parse(rest).Some? && R.Parse(s).value[0] == [piece] + R.Parse(rest).value[0]
  {
  }

  lemma LiteralPiece(c: char, ps: seq<R.Piece>, t: string, j: nat)
    requires j <= |t| && R.MatchesAt([R.Single(R.Literal(c))] + ps, t, j)
    ensures j < |t| && t[j] == c && R.MatchesAt(ps, t, j + 1)
  {
    var all := [R.Single(R.Literal(c))] + ps;
    assert all[1..] == ps;
    var k :| j <= k <= |t| && R.Spans(all[0], t, j, k) && R.MatchesAt(all[1..], t, k);
    SetsAgree(Literal(c), t[j]);
  }

  lemma {:induction false} FirstLeads(p: string, i: nat, t: string, j: nat)
    requires i <= |p| && j <= |t| && R.Parse(Rest(TokensFrom(p, i))).Some?
    requires R.MatchesAt(R.Parse(Rest(TokensFrom(p, i))).value[0], t, j)
    ensures Lead(p, i) <= t[j..]
    decreases |p| - i
  {
    if i < |p| && !Metachar(p[i]) {
      var r := Head(p, i);
      LiteralFirst(r.0.c, TokensFrom(p, r.1), t, j);
      FirstLeads(p, r.1, t, j + 1);
      PrefixCons(r.0.c, Lead(p, r.1), t, j);
    }
  }

  /** The alternatives of the compiled pattern. */
  function Alternatives(p: string): (alts: seq<seq<R.Piece>>)
    requires R.Parse(RegexText(p)).Some?
    ensures |alts| >= 1
  {
    R.Parse(RegexText(p)).value
  }

  /** For every pattern: a match of the first alternative starts with the literal prefix if
      and only if the pattern is clean. */
  lemma FirstAlternativeIff(p: string, t: string, i: nat)
    requires R.Parse(RegexText(p)).Some? && i <= |t| && R.MatchesAt(Alternatives(p)[0], t, i)
    ensures PrefixFrom(p, 0) <= t <==> CleanFrom(p, 0)
  {
    var ts := Tokens(p);
    BeginParses(p);
    FirstPiece(RegexText(p), R.Begin, Rest(ts));
    var tail := R.Parse(Rest(ts)).value;
    var first := [R.Begin] + tail[0];
    assert first[1..] == tail[0];
    var k :| i <= k <= |t| && R.Spans(first[0], t, i, k) && R.MatchesAt(first[1..], t, k);
    FirstLeads(p, 0, t, 0);
    LeadDecides(p, 0, t, 0);
    assert t[0..] == t;
  }

  // ----- Which alternatives make the prefix unsound -----

  ghost predicate Possible(alt: seq<R.Piece>) { exists t, i :: 0 <= i <= |t| && R.MatchesAt(alt, t, i) }

  /** Every match from the start of a text begins with `prefix`. */
  ghost predicate StartsWith(alt: seq<R.Piece>, prefix: string)
  {
    forall t :: R.MatchesAt(alt, t, 0) ==> prefix <= t
  }

  /** A later alternative keeps the prefix sound if it matches nothing, or is anchored at the
      start and begins with the prefix itself. */
  ghost predicate Respects(alt: seq<R.Piece>, prefix: string)
  {
    Possible(alt) ==> R.Begin in alt && StartsWith(alt, prefix)
  }

  /** An alternative with a start anchor matches only from the start. */
  lemma {:induction false} AnchoredAtStart(alt: seq<R.Piece>, t: string, i: nat)
    requires i <= |t| && R.Begin in alt && R.MatchesAt(alt, t, i)
    ensures i == 0
    decreases |alt|
  {
    var k :| i <= k <= |t| && R.Spans(alt[0], t, i, k) && R.MatchesAt(alt[1..], t, k);
    if alt[0] != R.Begin {
      AnchoredAtStart(alt[1..], t, k);
    }
  }

  lemma SpansShifted(piece: R.Piece, x: string, t: string, i: nat, k: nat)
    requires i <= k <= |t| && piece != R.Begin && R.Spans(piece, t, i, k)
    ensures R.Spans(piece, x + t, |x| + i, |x| + k)
  {
    assert (x + t)[|x| + i..|x| + k] == t[i..k];
    assert forall j :: |x| + i <= j < |x| + k ==> (x + t)[j] == t[j - |x|];
  }

  /** One without it matches after any other text, too. */
  lemma {:induction false} UnanchoredShifts(alt: seq<R.Piece>, x: string, t: string, i: nat)
    requires i <= |t| && R.Begin !in alt && R.MatchesAt(alt, t, i)
    ensures R.MatchesAt(alt, x + t, |x| + i)
    decreases |alt|
  {
    if alt != [] {
      var k :| i <= k <= |t| && R.Spans(alt[0], t, i, k) && R.MatchesAt(alt[1..], t, k);
      SpansShifted(alt[0], x, t, i, k);
      UnanchoredShifts(alt[1..], x, t, k);
    }
  }

  lemma UnsoundIfDisrespected(p: string, b: nat)
    requires R.Parse(RegexText(p)).Some? && 1 <= b < |Alternatives(p)| && PrefixFrom(p, 0) != ""
    requires forall t :: R.MatchString(RegexText(p), t) ==> PrefixFrom(p, 0) <= t
    ensures Respects(Alternatives(p)[b], PrefixFrom(p, 0))
  {
    var alt, prefix := Alternatives(p)[b], PrefixFrom(p, 0);
    if Possible(alt) && R.Begin !in alt {
      var t, i :| 0 <= i <= |t| && R.MatchesAt(alt, t, i);
      var x := if prefix[0] == 'a' then "b" else "a";
      UnanchoredShifts(alt, x, t, i);
      assert R.MatchString(RegexText(p), x + t);
    }
    forall t | R.MatchesAt(alt, t, 0) ensures prefix <= t {
      assert R.MatchString(RegexText(p), t);
    }
  }

  lemma SoundIfRespected(p: string, t: string)
    requires R.MatchString(RegexText(p), t)
    requires CleanFrom(p, 0) || !Possible(Alternatives(p)[0])
    requires forall b :: 1 <= b < |Alternatives(p)| ==> Respects(Alternatives(p)[b], PrefixFrom(p, 0))
    ensures PrefixFrom(p, 0) <= t
  {
    var b, i :| 0 <= b < |Alternatives(p)| && 0 <= i <= |t| && R.MatchesAt(Alternatives(p)[b], t, i);
    assert Possible(Alternatives(p)[b]);
    if b == 0 {
      FirstAlternativeIff(p, t, i);
    } else {
      AnchoredAtStart(Alternatives(p)[b], t, i);
    }
  }

  /** For every pattern that compiles: all its matches start with the literal prefix if and
      only if the prefix is empty, or the pattern is clean (or its first alternative
      impossible) and every later alternative respects the prefix. */
  lemma PrefixSoundExactly(p: string)
    requires R.Parse(RegexText(p)).Some?
    ensures (forall t :: R.MatchString(RegexText(p), t) ==> PrefixFrom(p, 0) <= t) <==>
            || PrefixFrom(p, 0) == ""
            || ((CleanFrom(p, 0) || !Possible(Alternatives(p)[0]))
                && forall b :: 1 <= b < |Alternatives(p)| ==> Respects(Alternatives(p)[b], PrefixFrom(p, 0)))
  {
    var prefix := PrefixFrom(p, 0);
    if prefix != "" && forall t :: R.MatchString(RegexText(p), t) ==> prefix <= t {
      if Possible(Alternatives(p)[0]) {
        var t, i :| 0 <= i <= |t| && R.MatchesAt(Alternatives(p)[0], t, i);
        assert R.MatchString(RegexText(p), t);
        FirstAlternativeIff(p, t, i);
      }
      forall b | 1 <= b < |Alternatives(p)| ensures Respects(Alternatives(p)[b], prefix) {
        UnsoundIfDisrespected(p, b);
      }
    }
    if (CleanFrom(p, 0) || !Possible(Alternatives(p)[0]))
       && forall b :: 1 <= b < |Alternatives(p)| ==> Respects(Alternatives(p)[b], prefix) {
      forall t | R.MatchString(RegexText(p), t) ensures prefix <= t {
        SoundIfRespected(p, t);
      }
    }
  }

  /** A caller's condition: if no class lists a `]` before a `|`, a text matched by the compiled
      pattern starts with the prefix if and only if the pattern is clean. */
  lemma PrefixSoundIff(p: string, t: string)
    requires NoInjection(p) && R.MatchString(RegexText(p), t)
    ensures PrefixFrom(p, 0) <= t <==> CleanFrom(p, 0)
  {
    OneAlternative(p);
    var b, i :| 0 <= b < |Alternatives(p)| && 0 <= i <= |t| && R.MatchesAt(Alternatives(p)[b], t, i);
    FirstAlternativeIff(p, t, i);
  }

  // ----- A class that injects an alternative -----

  function Char(c: char): R.Piece { R.Single(R.Literal(c)) }

  lemma TwoBranches(s: string, piece: R.Piece, rest: string, first: seq<R.Piece>, second: seq<R.Piece>)
    requires s != "" && s[0] != '|' && R.NextPiece(s) == Some((piece, rest)) && R.Parse(rest) == Some([first, second])
    ensures R.Parse(s) == Some([[piece] + first, second])
  {
    assert [first, second][1..] == [second];
    assert [[piece] + first] + [second] == [[piece] + first, second];
  }

  lemma SecondBranch()
    ensures R.Parse("|b]$") == Some([[], [Char('b'), Char(']'), R.End]])
  {
    assert "$"[1..] == "";
    ParseStep("$", R.End, "", []);
    assert [R.End] + [] == [R.End];
    assert "]$"[1..] == "$";
    ParseStep("]$", Char(']'), "$", [R.End]);
    assert [Char(']')] + [R.End] == [Char(']'), R.End];
    assert "b]$"[1..] == "]$";
    ParseStep("b]$", Char('b'), "]$", [Char(']'), R.End]);
    assert [Char('b')] + [Char(']'), R.End] == [Char('b'), Char(']'), R.End];
    assert "|b]$"[1..] == "b]$";
    assert [[]] + [[Char('b'), Char(']'), R.End]] == [[], [Char('b'), Char(']'), R.End]];
  }

  lemma ClassA()
    ensures R.NextPiece("[a]|b]$") == Some((Char('a'), "|b]$"))
  {
    assert "[a]|b]$"[1..] == "a" + "]" + "|b]$";
    assert Ranges("a") == [('a', 'a')];
    ItemsOfPlain("a", "|b]$", true);
  }

  /** The injected alternation: two branches, only the first of which is anchored at the start. */
  lemma InjectedAlternation()
    ensures R.Parse("^f[a]|b]$") == Some([[R.Begin] + ([Char('f')] + ([Char('a')] + [])), [Char('b'), Char(']'), R.End]])
  {
    InjectedTail();
    var second := [Char('b'), Char(']'), R.End];
    assert "^f[a]|b]$"[1..] == "f[a]|b]$";
    TwoBranches("^f[a]|b]$", R.Begin, "f[a]|b]$", [Char('f')] + ([Char('a')] + []), second);
  }

  lemma InjectedTail()
    ensures R.Parse("f[a]|b]$") == Some([[Char('f')] + ([Char('a')] + []), [Char('b'), Char(']'), R.End]])
  {
    SecondBranch();
    ClassA();
    var second := [Char('b'), Char(']'), R.End];
    TwoBranches("[a]|b]$", Char('a'), "|b]$", [], second);
    LiteralParses('f', "[a]|b]$");
    assert QuoteMeta('f') + "[a]|b]$" == "f[a]|b]$";
    TwoBranches("f[a]|b]$", Char('f'), "[a]|b]$", [Char('a')] + [], second);
  }

  lemma SecondBranchMatches()
    ensures R.MatchesAt([Char('b'), Char(']'), R.End], "b]", 0)
  {
    var t := "b]";
    SetsAgree(Literal('b'), 'b');
    SetsAgree(Literal(']'), ']');
    var b2, b1 := [R.End], [Char(']'), R.End];
    assert b2[1..] == [] && b1[1..] == b2 && [Char('b'), Char(']'), R.End][1..] == b1;
    assert R.Spans(R.End, t, 2, 2) && R.MatchesAt([], t, 2);
    assert R.MatchesAt(b2, t, 2);
    assert R.Spans(Char(']'), t, 1, 2);
    assert R.MatchesAt(b1, t, 1);
    assert R.Spans(Char('b'), t, 0, 1);
  }

  /** An escaped bracket in a class is written unescaped, so `f[a\]|b]` becomes `^f[a]|b]$`,
      which matches `b]`. The glob does not, the pattern is clean, and the text does not start
      with the literal prefix. */
  lemma EscapedBracketBreaksTranslation()
    ensures var p, t := "f[a\\]|b]", "b]";
            R.MatchString(RegexText(p), t) && !GlobMatches(p, t) && CleanFrom(p, 0) && !(PrefixFrom(p, 0) <= t)
  {
    var p, t := "f[a\\]|b]", "b]";
    BrokenText();
    InjectedAlternation();
    SecondBranchMatches();
    assert R.Parse(RegexText(p)).value[1] == [Char('b'), Char(']'), R.End];
    BrokenTokens();
    if GlobMatches(p, t) {
      LiteralSpan('f', [Class("a\\]|b")], t, 0);
    }
    BrokenPrefix();
  }

  lemma BrokenPrefix()
    ensures var p := "f[a\\]|b]"; PrefixFrom(p, 0) == "f" && CleanFrom(p, 0)
  {
  }

  lemma BrokenClassText()
    ensures Emit(Class("a\\]|b")) == "[a]|b]"
  {
    UnescapedMember("b");
    assert "b"[1..] == "";
    UnescapedMember("|b");
    assert "|b"[1..] == "b";
    UnescapedMember("\\]|b");
    assert "\\]|b"[2..] == "|b";
    UnescapedMember("a\\]|b");
    assert "a\\]|b"[1..] == "\\]|b";
  }

  lemma BrokenClass()
    ensures Head("f[a\\]|b]", 1) == (Class("a\\]|b"), 8)
  {
    var p := "f[a\\]|b]";
    assert Close(p, 7) == 7;
    assert Close(p, 6) == 7;
    assert Close(p, 5) == 7;
    assert Close(p, 3) == 7;
    assert Close(p, 2) == 7;
    assert p[2..7] == "a\\]|b";
  }

  lemma BrokenTokens()
    ensures Tokens("f[a\\]|b]") == [Literal('f')] + [Class("a\\]|b")]
  {
    var p := "f[a\\]|b]";
    BrokenClass();
    assert TokensFrom(p, 8) == [];
    assert TokensFrom(p, 1) == [Class("a\\]|b")] + [];
  }

  lemma BrokenText()
    ensures RegexText("f[a\\]|b]") == "^f[a]|b]$"
  {
    BrokenTokens();
    BrokenClassText();
    EmitTwo(Literal('f'), Class("a\\]|b"));
    Anchored("f", "[a]|b]");
  }

  lemma Anchored(a: string, b: string)
    ensures "^" + (a + b) + "$" == "^" + a + b + "$"
  {
  }

  lemma EmitTwo(a: Token, b: Token)
    ensures EmitAll([a] + [b]) == Emit(a) + Emit(b)
  {
    assert [b][1..] == [];
    assert EmitAll([b]) == Emit(b);
    assert ([a] + [b])[1..] == [b];
  }
}
