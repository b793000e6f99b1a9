/** The program that turns a glob into regular-expression text: index-advancing loops over
    the pattern, proved to emit exactly `GlobCompile.RegexText`. */
module GlobTranslator {
  import opened Options
  import opened Strings
  import opened GlobPattern
  import opened GlobCompile

  // ----- Classes -----

  /** Moving one member of the class body from the rest to the text already written. */
  lemma MemberMoves(cls: string, p: string, i: nat, c: nat)
    requires i < c <= |p|
    ensures p[i] == '\\' && i + 1 < c ==>
              cls + Unescaped(p[i..c]) == (cls + [p[i + 1]]) + Unescaped(p[i + 2..c])
    ensures p[i] != '\\' ==> cls + Unescaped(p[i..c]) == (cls + [p[i]]) + Unescaped(p[i + 1..c])
  {
    assert p[i..c][1..] == p[i + 1..c];
    Assoc(cls, [p[i]], Unescaped(p[i + 1..c]));
    if i + 1 < c {
      assert p[i..c][2..] == p[i + 2..c];
      Assoc(cls, [p[i + 1]], Unescaped(p[i + 2..c]));
    }
  }

  /** The bracket and the translated negation or caret. */
  function Opening(p: string, start: nat): string
  {
    if start + 1 < |p| && p[start + 1] == '!' then "[^"
    else if start + 1 < |p| && p[start + 1] == '^' then "[\\^"
    else "["
  }

  lemma ClassWritten(p: string, start: nat, c: nat)
    requires start < c < |p| && BodyStart(p, start) <= c && p[c] == ']'
    ensures Opening(p, start) + Unescaped(p[BodyStart(p, start)..c]) == "[" + ClassText(p[start + 1..c])
  {
    var inner := p[start + 1..c];
    if BodyStart(p, start) == start + 2 {
      assert inner[0] == p[start + 1] && inner[1..] == p[start + 2..c];
      assert "[^" == "[" + "^" && "[\\^" == "[" + "\\^";
      Assoc("[", "^", Unescaped(inner[1..]));
      Assoc("[", "\\^", Unescaped(inner[1..]));
    } else if c > start + 1 {
      assert inner[0] == p[start + 1];
    }
  }

  /** What remains of the body after the first `i` characters of the pattern. */
  ghost predicate ClassProgress(p: string, start: nat, i: nat, cls: string)
  {
    var from, close := BodyStart(p, start), ClassClose(p, start);
    && from <= i && Close(p, i) == close
    && (close >= 0 ==> i <= close && cls + Unescaped(p[i..close]) == Opening(p, start) + Unescaped(p[from..close]))
  }

  lemma ClassStep(p: string, start: nat, i: nat, cls: string)
    requires i < |p| && p[i] != ']' && ClassProgress(p, start, i, cls)
    ensures p[i] != '\\' ==> ClassProgress(p, start, i + 1, cls + [p[i]])
    ensures p[i] == '\\' && i + 1 < |p| ==> ClassProgress(p, start, i + 2, cls + [p[i + 1]])
    ensures p[i] == '\\' && i + 1 == |p| ==> ClassProgress(p, start, i + 1, cls + "\\\\")
  {
    var close := ClassClose(p, start);
    if close >= 0 {
      assert i < close;
      MemberMoves(cls, p, i, close);
    }
  }

  lemma ClassDone(p: string, start: nat, i: nat, cls: string)
    requires start < i < |p| && p[i] == ']' && ClassProgress(p, start, i, cls)
    ensures i == ClassClose(p, start) && cls + "]" == Emit(Class(p[start + 1..i]))
  {
    assert p[i..i] == "" && cls + "" == cls;
    ClassWritten(p, start, i);
  }

  lemma ClassUnclosed(p: string, start: nat, i: nat, cls: string)
    requires i >= |p| && ClassProgress(p, start, i, cls)
    ensures ClassClose(p, start) == -1
  {
  }

  /** The body of the class that opens at `start`, after its opening. */
  method AppendClassBody(pattern: string, start: nat, from: nat, opening: string) returns (text: string, next: nat, ok: bool)
    requires start < |pattern| && from == BodyStart(pattern, start) && opening == Opening(pattern, start)
    ensures ok <==> ClassClose(pattern, start) >= 0
    ensures ok ==> next == ClassClose(pattern, start) && text == Emit(Class(pattern[start + 1..next]))
    ensures !ok ==> text == "" && next == start
  {
    var cls := opening;
    var i := from;
    while i < |pattern|
      invariant ClassProgress(pattern, start, i, cls)
      decreases |pattern| - i
    {
      var ch := pattern[i];
      if ch == ']' {
        ClassDone(pattern, start, i, cls);
        return cls + "]", i, true;
      }
      ClassStep(pattern, start, i, cls);
      if ch == '\\' {
        if i + 1 >= |pattern| {
          cls := cls + "\\\\";
          i := i + 1;
          continue;
        }
        i := i + 1;
        ch := pattern[i];
      }
      cls := cls + [ch];
      i := i + 1;
    }
    ClassUnclosed(pattern, start, i, cls);
    return "", start, false;
  }

  /** Translates the class that opens at `start`, if it closes. */
  method AppendGlobClass(pattern: string, start: nat) returns (text: string, next: nat, ok: bool)
    requires start < |pattern| && pattern[start] == '['
    ensures ok <==> ClassClose(pattern, start) >= 0
    ensures ok ==> next == ClassClose(pattern, start) && text == Emit(Class(pattern[start + 1..next]))
    ensures !ok ==> text == "" && next == start
  {
    var i := start + 1;
    if i >= |pattern| {
      return "", start, false;
    }
    var cls := "[";
    if pattern[i] == '!' {
      cls := cls + "^";
      i := i + 1;
    } else if pattern[i] == '^' {
      cls := cls + "\\^";
      i := i + 1;
    }
    text, next, ok := AppendClassBody(pattern, start, i, cls);
  }

  // ----- Alternatives -----

  lemma {:induction false} QuoteAppend(w: string, c: char)
    ensures QuoteWord(w + [c]) == QuoteWord(w) + QuoteMeta(c)
    decreases |w|
  {
    if w == "" {
      assert w + [c] == [c] && [c][1..] == "";
      assert QuoteWord("") == "";
    } else {
      assert (w + [c])[1..] == w[1..] + [c];
      QuoteAppend(w[1..], c);
      Assoc(QuoteMeta(w[0]), QuoteWord(w[1..]), QuoteMeta(c));
    }
  }

  lemma {:induction false} JoinAppend(words: seq<string>, w: string)
    requires words != []
    ensures JoinWords(words + [w]) == (JoinWords(words) + "|") + QuoteWord(w)
    decreases |words|
  {
    assert (words + [w])[1..] == words[1..] + [w];
    if |words| == 1 {
      assert words[1..] == [] && [] + [w] == [w];
    } else {
      JoinAppend(words[1..], w);
      var a, b := QuoteWord(words[0]) + "|", JoinWords(words[1..]);
      Assoc(a, b + "|", QuoteWord(w));
      Assoc(a, b, "|");
    }
  }

  /** What reading the rest of the braces gives after `words` and the unfinished `word`. */
  function Resumed(words: seq<string>, word: string, rest: Option<Braces>): Option<Braces>
    requires rest.Some? ==> |rest.value.words| >= 1
  {
    if rest.None? then None
    else Some(rest.value.(words := words + ([word + rest.value.words[0]] + rest.value.words[1..])))
  }

  lemma ResumedStart(rest: Option<Braces>)
    requires rest.Some? ==> |rest.value.words| >= 1
    ensures Resumed([], "", rest) == rest
  {
    if rest.Some? {
      var ws := rest.value.words;
      assert "" + ws[0] == ws[0] && [ws[0]] + ws[1..] == ws && [] + ws == ws;
    }
  }

  lemma ResumedChar(words: seq<string>, word: string, c: char, rest: Option<Braces>)
    requires rest.Some? ==> |rest.value.words| >= 1
    ensures Resumed(words, word, Prefixed(c, rest)) == Resumed(words, word + [c], rest)
  {
    if rest.Some? {
      var ws := rest.value.words;
      Assoc(word, [c], ws[0]);
      assert ([[c] + ws[0]] + ws[1..])[1..] == ws[1..];
    }
  }

  lemma ResumedComma(words: seq<string>, word: string, rest: Braces)
    requires |rest.words| >= 1
    ensures Resumed(words, word, Some(rest.(words := [""] + rest.words))) == Resumed(words + [word], "", Some(rest))
  {
    var ws := rest.words;
    assert word + "" == word && "" + ws[0] == ws[0];
    assert ([""] + ws)[1..] == ws && [ws[0]] + ws[1..] == ws;
    assert words + ([word] + ws) == (words + [word]) + ws;
  }

  lemma ResumedEnd(words: seq<string>, word: string, next: nat)
    ensures Resumed(words, word, Some(Braces([""], next))) == Some(Braces(words + [word], next))
  {
    assert word + "" == word && [""][1..] == [] && [word] + [] == [word];
  }

  /** `parts` are the quoted forms of `words`. */
  ghost predicate Quoted(parts: seq<string>, words: seq<string>)
  {
    |parts| == |words| && forall k :: 0 <= k < |parts| ==> parts[k] == QuoteWord(words[k])
  }

  method JoinParts(parts: seq<string>, ghost words: seq<string>) returns (text: string)
    requires Quoted(parts, words) && words != []
    ensures text == JoinWords(words)
  {
    text := "";
    for j := 0 to |parts|
      invariant text == JoinWords(words[..j])
    {
      assert words[..j + 1] == words[..j] + [words[j]];
      if j > 0 {
        JoinAppend(words[..j], words[j]);
        text := text + "|";
      }
      text := text + parts[j];
    }
    assert words[..|words|] == words;
  }

  /** The state of the brace loop at position `i`: `words` finished, `word` under way. */
  ghost predicate BraceProgress(p: string, start: nat, i: nat, words: seq<string>, word: string)
  {
    ReadBraces(p, start + 1) == Resumed(words, word, ReadBraces(p, i))
  }

  lemma BraceStep(p: string, start: nat, i: nat, words: seq<string>, word: string)
    requires i < |p| && BraceProgress(p, start, i, words, word)
    ensures p[i] == '}' ==> ReadBraces(p, start + 1) == Some(Braces(words + [word], i + 1))
    ensures p[i] == ',' ==> BraceProgress(p, start, i + 1, words + [word], "")
    ensures p[i] == '\\' && i + 1 < |p| ==> BraceProgress(p, start, i + 2, words, word + [p[i + 1]])
    ensures p[i] !in {'}', ','} && (p[i] == '\\' ==> i + 1 == |p|) ==> BraceProgress(p, start, i + 1, words, word + [p[i]])
  {
    ResumedEnd(words, word, i + 1);
    var rest := ReadBraces(p, i + 1);
    ResumedChar(words, word, p[i], rest);
    if i + 1 < |p| { ResumedChar(words, word, p[i + 1], ReadBraces(p, i + 2)); }
    if rest.Some? { ResumedComma(words, word, rest.value); }
  }

  /** At the closing brace: a group needs two parts. */
  method CloseGroup(parts: seq<string>, ghost words: seq<string>) returns (text: string, ok: bool)
    requires Quoted(parts, words)
    ensures ok <==> |words| >= 2
    ensures text == if ok then Emit(Group(words)) else ""
  {
    if |parts| < 2 {
      return "", false;
    }
    var joined := JoinParts(parts, words);
    return "(?:" + joined + ")", true;
  }

  /** Translates the brace group that opens at `start`, if it closes and has a comma. */
  method AppendGlobAlternatives(pattern: string, start: nat) returns (text: string, next: nat, ok: bool)
    requires start < |pattern| && pattern[start] == '{'
    ensures var b := ReadBraces(pattern, start + 1);
            && (ok <==> b.Some? && |b.value.words| >= 2)
            && (ok ==> next + 1 == b.value.next && text == Emit(Group(b.value.words)))
    ensures !ok ==> text == "" && next == start
  {
    var i := start + 1;
    var parts: seq<string> := [];
    var part := "";
    ghost var words: seq<string>, word := [], "";
    ResumedStart(ReadBraces(pattern, start + 1));
    while i < |pattern|
      invariant start + 1 <= i <= |pattern|
      invariant Quoted(parts, words) && part == QuoteWord(word)
      invariant BraceProgress(pattern, start, i, words, word)
      decreases |pattern| - i
    {
      var ch := pattern[i];
      BraceStep(pattern, start, i, words, word);
      if ch == '\\' {
        if i + 1 < |pattern| {
          i := i + 1;
          QuoteAppend(word, pattern[i]);
          part, word := part + QuoteMeta(pattern[i]), word + [pattern[i]];
        } else {
          QuoteAppend(word, ch);
          part, word := part + "\\\\", word + [ch];
        }
      } else if ch == ',' {
        parts, words := parts + [part], words + [word];
        part, word := "", "";
      } else if ch == '}' {
        parts, words := parts + [part], words + [word];
        text, ok := CloseGroup(parts, words);
        return text, if ok then i else start, ok;
      } else {
        QuoteAppend(word, ch);
        part, word := part + QuoteMeta(ch), word + [ch];
      }
      i := i + 1;
    }
    return "", start, false;
  }

  // ----- The whole pattern -----

  /** One iteration of the main loop: the text for the token at `i`, and where it ends. */
  method EmitAt(pattern: string, i: nat) returns (text: string, next: nat)
    requires i < |pattern|
    ensures var r := Head(pattern, i); text == Emit(r.0) && next == r.1
  {
    var ch := pattern[i];
    if ch == '*' {
      if i + 1 < |pattern| && pattern[i + 1] == '*' {
        return ".*", i + 2;
      }
      return "[^/]*", i + 1;
    }
    if ch == '?' {
      return "[^/]", i + 1;
    }
    if ch == '[' {
      var cls, end, ok := AppendGlobClass(pattern, i);
      if ok {
        return cls, end + 1;
      }
      return "\\[", i + 1;
    }
    if ch == '{' {
      var alt, end, ok := AppendGlobAlternatives(pattern, i);
      if ok {
        return alt, end + 1;
      }
      return "\\{", i + 1;
    }
    if ch == '\\' {
      if i + 1 < |pattern| && Escapable(pattern[i + 1]) {
        return QuoteMeta(pattern[i + 1]), i + 2;
      }
      return "\\\\", i + 1;
    }
    if ch in {'.', '(', ')', ']', '}', '+', '^', '$', '|'} {
      return ['\\', ch], i + 1;
    }
    return [ch], i + 1;
  }

  lemma EmitStep(buf: string, pattern: string, i: nat)
    requires i < |pattern|
    ensures var r := Head(pattern, i);
            buf + EmitAll(TokensFrom(pattern, i)) == (buf + Emit(r.0)) + EmitAll(TokensFrom(pattern, r.1))
  {
    var r := Head(pattern, i);
    assert TokensFrom(pattern, i)[1..] == TokensFrom(pattern, r.1);
    Assoc(buf, Emit(r.0), EmitAll(TokensFrom(pattern, r.1)));
  }

  /** buildRegexString, case-sensitive and anchored. */
  method BuildRegexString(pattern: string) returns (buf: string)
    ensures buf == RegexText(pattern)
  {
    buf := "^";
    var i := 0;
    while i < |pattern|
      invariant 0 <= i <= |pattern|
      invariant buf + EmitAll(TokensFrom(pattern, i)) == "^" + EmitAll(Tokens(pattern))
    {
      EmitStep(buf, pattern, i);
      var text, next := EmitAt(pattern, i);
      buf := buf + text;
      i := next;
    }
    assert buf + "" == buf;
    buf := buf + "$";
  }
}
