/** The table renderer's column shrinker: a greedy loop that takes one column at a time
    from the widest, proved to compute the unique max-min fair allocation of the terminal
    width, and the row and rule lines drawn with it, proved to be equally wide.
    Texts are one terminal column per character (no ANSI sequences, no wide runes). */
module TableLayout {

  function Max(x: int, y: int): int { if x < y then y else x }

  function Sum(s: seq<int>): int
  {
    if s == [] then 0 else Sum(s[..|s| - 1]) + s[|s| - 1]
  }

  lemma {:induction false} SumUpdate(s: seq<int>, i: nat, v: int)
    requires i < |s|
    ensures Sum(s[i := v]) == Sum(s) - s[i] + v
  {
    var t := s[i := v];
    if i == |s| - 1 {
      assert t[..|t| - 1] == s[..|s| - 1];
    } else {
      assert t[..|t| - 1] == s[..|s| - 1][i := v];
      SumUpdate(s[..|s| - 1], i, v);
    }
  }

  /** A pointwise smaller sequence of the same length has a smaller sum, strictly if any entry is. */
  lemma {:induction false} SumMonotone(v: seq<int>, w: seq<int>)
    requires |v| == |w| && forall i :: 0 <= i < |v| ==> v[i] <= w[i]
    ensures Sum(v) <= Sum(w)
    ensures v != w ==> Sum(v) < Sum(w)
  {
    if v != [] {
      var n := |v| - 1;
      SumMonotone(v[..n], w[..n]);
      assert v == v[..n] + [v[n]] && w == w[..n] + [w[n]];
    }
  }

  lemma {:induction false} SumAtMost(s: seq<int>, bound: int)
    requires forall i :: 0 <= i < |s| ==> s[i] <= bound
    ensures Sum(s) <= bound * |s|
  {
    if s != [] { SumAtMost(s[..|s| - 1], bound); }
  }

  method SumInts(values: array<int>) returns (sum: int)
    ensures sum == Sum(values[..])
  {
    sum := 0;
    for i := 0 to values.Length
      invariant sum == Sum(values[..i])
    {
      assert values[..i + 1][..i] == values[..i];
      sum := sum + values[i];
    }
    assert values[..values.Length] == values[..];
  }

  /** The leftmost of the widest columns. */
  method WidestColumn(widths: array<int>) returns (idx: nat)
    requires widths.Length > 0
    ensures idx < widths.Length
    ensures forall i :: 0 <= i < widths.Length ==> widths[i] <= widths[idx]
    ensures forall i :: 0 <= i < idx ==> widths[i] < widths[idx]
  {
    idx := 0;
    for i := 1 to widths.Length
      invariant idx < i
      invariant forall j :: 0 <= j < i ==> widths[j] <= widths[idx]
      invariant forall j :: 0 <= j < idx ==> widths[j] < widths[idx]
    {
      if widths[i] > widths[idx] {
        idx := i;
      }
    }
  }

  // ----- Fair allocations -----

  /** Every column gets at least one character and no more than it asks for. */
  ghost predicate Feasible(natural: seq<int>, w: seq<int>)
  {
    |w| == |natural| && forall i :: 0 <= i < |w| ==> 1 <= w[i] <= natural[i]
  }

  /** A shrunk column is at most one narrower than any other, and never narrower than a column to its left. */
  ghost predicate Fair(natural: seq<int>, w: seq<int>)
    requires |w| == |natural|
  {
    && (forall i, j :: 0 <= i < |w| && 0 <= j < |w| && w[i] < natural[i] ==> w[j] <= w[i] + 1)
    && (forall i, j :: 0 <= i < j < |w| && w[j] < natural[j] ==> w[i] <= w[j])
  }

  /** What the shrinker must return for the budget `available`. */
  ghost predicate IsLayout(natural: seq<int>, available: int, w: seq<int>)
  {
    && Feasible(natural, w) && Fair(natural, w)
    && if Sum(natural) <= available then w == natural else Sum(w) == available
  }

  lemma NoCrossing(natural: seq<int>, v: seq<int>, w: seq<int>, i: nat, j: nat)
    requires Feasible(natural, v) && Fair(natural, v) && Feasible(natural, w) && Fair(natural, w)
    requires i < |v| && v[i] < w[i]
    requires j < |v|
    ensures v[j] <= w[j]
  {
  }

  /** There is only one such layout: the greedy loop has no freedom left. */
  lemma LayoutUnique(natural: seq<int>, available: int, v: seq<int>, w: seq<int>)
    requires IsLayout(natural, available, v) && IsLayout(natural, available, w)
    ensures v == w
  {
    if i :| 0 <= i < |v| && v[i] < w[i] {
      forall j | 0 <= j < |v| ensures v[j] <= w[j] {
        NoCrossing(natural, v, w, i, j);
      }
      SumMonotone(v, w);
    } else {
      SumMonotone(w, v);
    }
  }

  /** Max-min fairness: another allocation within the budget can widen a column only by
      taking from a column that is at most one character wider. */
  lemma MaxMinFair(natural: seq<int>, available: int, w: seq<int>, v: seq<int>, j: nat)
    requires IsLayout(natural, available, w)
    requires Feasible(natural, v) && Sum(v) <= available
    requires j < |v| && v[j] > w[j]
    ensures exists i :: 0 <= i < |v| && v[i] < w[i] && w[i] <= w[j] + 1
  {
    assert w != natural;
    if forall i :: 0 <= i < |v| ==> w[i] <= v[i] {
      SumMonotone(w, v);
      assert false;
    }
    var i :| 0 <= i < |v| && v[i] < w[i];
    assert w[i] <= w[j] + 1;
  }

  // ----- columnWidths -----

  /** The width column `i` would like: its header and all its cells, at least 1. */
  function Natural(columns: seq<string>, rows: seq<seq<string>>, i: nat): int
    requires i < |columns| && forall row :: row in rows ==> |row| <= |columns|
    decreases |rows|
  {
    if rows == [] then Max(1, |columns[i]|)
    else
      var rest := rows[..|rows| - 1];
      var last := rows[|rows| - 1];
      var before := Natural(columns, rest, i);
      if i < |last| then Max(before, |last[i]|) else before
  }

  function Naturals(columns: seq<string>, rows: seq<seq<string>>): (r: seq<int>)
    requires forall row :: row in rows ==> |row| <= |columns|
  {
    seq(|columns|, i requires 0 <= i < |columns| => Natural(columns, rows, i))
  }

  /** `Natural` is the least width that is at least 1 and holds the header and every cell. */
  lemma {:induction false} NaturalIsLeast(columns: seq<string>, rows: seq<seq<string>>, i: nat)
    requires i < |columns| && forall row :: row in rows ==> |row| <= |columns|
    ensures Natural(columns, rows, i) >= 1 && Natural(columns, rows, i) >= |columns[i]|
    ensures forall k :: 0 <= k < |rows| && i < |rows[k]| ==> |rows[k][i]| <= Natural(columns, rows, i)
    ensures || Natural(columns, rows, i) == 1 || Natural(columns, rows, i) == |columns[i]|
            || exists k :: 0 <= k < |rows| && i < |rows[k]| && |rows[k][i]| == Natural(columns, rows, i)
    decreases |rows|
  {
    if rows != [] {
      var n := |rows| - 1;
      NaturalIsLeast(columns, rows[..n], i);
      if k :| 0 <= k < n && i < |rows[..n][k]| && |rows[..n][k][i]| == Natural(columns, rows[..n], i) {
        assert rows[k] == rows[..n][k];
      }
    }
  }

  /** Width of the frame: a separator on each side of every column and two spaces inside it. */
  function Chrome(n: nat): int { n + 1 + 2 * n }

  function Available(n: nat, target: int): int { Max(n, target - Chrome(n)) }

  method MeasureColumns(columns: seq<string>, rows: seq<seq<string>>) returns (widths: array<int>)
    requires forall row :: row in rows ==> |row| <= |columns|
    ensures fresh(widths) && widths[..] == Naturals(columns, rows)
  {
    widths := new int[|columns|];
    for i := 0 to |columns|
      invariant forall q :: 0 <= q < i ==> widths[q] == Natural(columns, [], q)
    {
      widths[i] := Max(1, |columns[i]|);
    }
    assert rows[..0] == [];
    for k := 0 to |rows|
      invariant forall q :: 0 <= q < |columns| ==> widths[q] == Natural(columns, rows[..k], q)
    {
      var row := rows[k];
      assert row in rows;
      assert rows[..k + 1][..k] == rows[..k];
      for i := 0 to |row|
        invariant forall q :: 0 <= q < i ==> widths[q] == Natural(columns, rows[..k + 1], q)
        invariant forall q :: i <= q < |columns| ==> widths[q] == Natural(columns, rows[..k], q)
      {
        widths[i] := Max(widths[i], |row[i]|);
      }
    }
    assert rows[..|rows|] == rows;
  }

  /** Over budget means some column is wider than one character. */
  lemma OverBudget(w: seq<int>, available: int)
    requires |w| <= available < Sum(w)
    ensures exists i :: 0 <= i < |w| && w[i] > 1
  {
    if forall i :: 0 <= i < |w| ==> w[i] <= 1 {
      SumAtMost(w, 1);
    }
  }

  /** Taking one character from the leftmost widest column keeps the allocation fair. */
  lemma TakeOneIsFair(natural: seq<int>, w: seq<int>, idx: nat)
    requires Feasible(natural, w) && Fair(natural, w)
    requires idx < |w| && w[idx] > 1
    requires forall i :: 0 <= i < |w| ==> w[i] <= w[idx]
    requires forall i :: 0 <= i < idx ==> w[i] < w[idx]
    ensures Feasible(natural, w[idx := w[idx] - 1])
    ensures Fair(natural, w[idx := w[idx] - 1])
    ensures Sum(w[idx := w[idx] - 1]) == Sum(w) - 1
  {
    SumUpdate(w, idx, w[idx] - 1);
  }

  lemma LayoutReached(natural: seq<int>, available: int, w: seq<int>)
    requires Feasible(natural, w) && Fair(natural, w) && Sum(w) <= available
    requires w == natural || Sum(w) == available
    ensures IsLayout(natural, available, w)
  {
    if w != natural { SumMonotone(w, natural); }
  }

  /** Takes one character from the leftmost widest column. */
  method TakeOne(widths: array<int>, idx: nat, ghost natural: seq<int>)
    requires idx < widths.Length && widths[idx] > 1
    requires Feasible(natural, widths[..]) && Fair(natural, widths[..])
    requires forall i :: 0 <= i < widths.Length ==> widths[i] <= widths[idx]
    requires forall i :: 0 <= i < idx ==> widths[i] < widths[idx]
    modifies widths
    ensures widths[..] == old(widths[..])[idx := old(widths[idx]) - 1]
    ensures Feasible(natural, widths[..]) && Fair(natural, widths[..])
    ensures Sum(widths[..]) == old(Sum(widths[..])) - 1
  {
    ghost var w := widths[..];
    TakeOneIsFair(natural, w, idx);
    widths[idx] := widths[idx] - 1;
    assert widths[..] == w[idx := w[idx] - 1];
  }

  /** The greedy loop. Its early exit is proved unreachable. */
  method Shrink(widths: array<int>, available: int)
    requires available >= widths.Length
    requires forall i :: 0 <= i < widths.Length ==> widths[i] >= 1
    modifies widths
    ensures IsLayout(old(widths[..]), available, widths[..])
  {
    ghost var natural := widths[..];
    var sum := SumInts(widths);
    while sum > available
      invariant sum == Sum(widths[..])
      invariant Feasible(natural, widths[..]) && Fair(natural, widths[..])
      invariant widths[..] == natural || sum >= available
      decreases sum
    {
      ghost var w := widths[..];
      OverBudget(w, available);
      var idx := WidestColumn(widths);
      if widths[idx] <= 1 {
        assert false;
        break;
      }
      TakeOne(widths, idx, natural);
      sum := SumInts(widths);
    }
    LayoutReached(natural, available, widths[..]);
  }

  /** A non-positive configured width means: use the detected terminal width. */
  method ColumnWidths(columns: seq<string>, rows: seq<seq<string>>, termWidth: int, detected: int)
    returns (widths: array<int>)
    requires forall row :: row in rows ==> |row| <= |columns|
    ensures fresh(widths)
    ensures var target := if termWidth <= 0 then detected else termWidth;
            IsLayout(Naturals(columns, rows), Available(|columns|, target), widths[..])
  {
    widths := MeasureColumns(columns, rows);
    forall i | 0 <= i < |columns| ensures widths[i] >= 1 {
      assert widths[..][i] == Natural(columns, rows, i);
      NaturalIsLeast(columns, rows, i);
    }
    var target := termWidth;
    if target <= 0 {
      target := detected;
    }
    var chrome := |columns| + 1 + 2 * |columns|;
    var available := target - chrome;
    if available < |columns| {
      available := |columns|;
    }
    Shrink(widths, available);
  }

  // ----- Lines -----

  function Spaces(n: nat): (r: string) ensures |r| == n { seq(n, _ => ' ') }

  function TruncateCell(s: string, width: int): (r: string)
    ensures |r| <= Max(0, width)
    ensures |s| <= width ==> r == s
  {
    if width <= 0 then ""
    else if |s| <= width then s
    else if width == 1 then "\U{2026}"
    else s[..width - 1] + "\U{2026}"
  }

  /** Width of a line over columns of the given widths: one frame character and, for
      each column, its text, two spaces and one more frame character. */
  function LineWidth(widths: seq<int>): int { 1 + Sum(widths) + 3 * |widths| }

  /** Offset of the frame character before column `i`; `Bar(w, |w|)` is the last one of the line. */
  function Bar(widths: seq<int>, i: nat): int
    requires i <= |widths|
  {
    Sum(widths[..i]) + 3 * i
  }

  lemma {:induction false} BarOrder(widths: seq<int>, i: nat, j: nat)
    requires i <= j <= |widths| && forall k :: 0 <= k < |widths| ==> widths[k] >= 0
    ensures 0 <= Bar(widths, i) && Bar(widths, i) + 3 * (j - i) <= Bar(widths, j)
    ensures i < j ==> Bar(widths, i) + widths[i] + 3 * (j - i) <= Bar(widths, j)
    decreases j
  {
    if j > 0 {
      assert widths[..j][..j - 1] == widths[..j - 1];
      if i < j {
        BarOrder(widths, i, j - 1);
      } else {
        BarOrder(widths, j - 1, j - 1);
      }
    }
  }

  function Padded(value: string, nullValue: string, width: int, right: bool): (r: string)
    requires width >= 0
    ensures |r| == width
  {
    var shown := TruncateCell(if value == "" && nullValue != "" then nullValue else value, width);
    var pad := Spaces(width - |shown|);
    if right then pad + shown else shown + pad
  }

  /** The text between frame characters `i` and `i + 1` of a line. */
  function CellText(line: string, widths: seq<int>, i: nat): string
    requires i < |widths| && 0 <= Bar(widths, i) && 0 <= widths[i]
  {
    if Bar(widths, i) + 2 + widths[i] <= |line|
    then line[Bar(widths, i) + 2..Bar(widths, i) + 2 + widths[i]] else ""
  }

  /** `c` stands at the offset of frame character `i`. */
  predicate BarAt(line: string, widths: seq<int>, i: int, c: char)
  {
    0 <= i <= |widths| && 0 <= Bar(widths, i) < |line| && line[Bar(widths, i)] == c
  }

  /** Column `i` holds `text`, with one space on each side. */
  predicate ColumnAt(line: string, widths: seq<int>, i: int, text: string)
  {
    && 0 <= i < |widths| && 0 <= widths[i] && 0 <= Bar(widths, i) && Bar(widths, i) + 2 + widths[i] < |line|
    && line[Bar(widths, i) + 1] == ' ' && line[Bar(widths, i) + 2 + widths[i]] == ' '
    && CellText(line, widths, i) == text
  }

  /** The first `n` columns of `line` are drawn as a row of the given texts. */
  ghost predicate RowDrawn(line: string, widths: seq<int>, n: nat, sep: char, texts: seq<string>)
    requires n <= |widths| <= |texts|
  {
    && |line| == Bar(widths, n) + 1
    && (forall i :: 0 <= i <= n ==> BarAt(line, widths, i, sep))
    && (forall i :: 0 <= i < n ==> ColumnAt(line, widths, i, texts[i]))
  }

  lemma ColumnKept(line: string, more: string, widths: seq<int>, i: int, text: string)
    requires ColumnAt(line, widths, i, text)
    ensures ColumnAt(line + more, widths, i, text)
  {
    assert CellText(line, widths, i) == CellText(line + more, widths, i);
  }

  lemma ColumnAdded(line: string, widths: seq<int>, n: nat, sep: char, text: string)
    requires n < |widths| && |text| == widths[n] && |line| == Bar(widths, n) + 1 && line != ""
    ensures ColumnAt(line + (" " + text + " " + [sep]), widths, n, text)
    ensures Bar(widths, n + 1) == Bar(widths, n) + widths[n] + 3 && BarAt(line + (" " + text + " " + [sep]), widths, n + 1, sep)
  {
    assert widths[..n + 1][..n] == widths[..n];
  }

  lemma RowDrawnStep(line: string, widths: seq<int>, n: nat, sep: char, texts: seq<string>)
    requires n < |widths| <= |texts|
    requires RowDrawn(line, widths, n, sep, texts) && |texts[n]| == widths[n]
    ensures RowDrawn(line + (" " + texts[n] + " " + [sep]), widths, n + 1, sep, texts)
  {
    var more := " " + texts[n] + " " + [sep];
    assert BarAt(line, widths, n, sep);
    ColumnAdded(line, widths, n, sep, texts[n]);
    forall i | 0 <= i <= n + 1 ensures BarAt(line + more, widths, i, sep) {
      if i <= n { assert BarAt(line, widths, i, sep); }
    }
    forall i | 0 <= i < n + 1 ensures ColumnAt(line + more, widths, i, texts[i]) {
      if i < n { ColumnKept(line, more, widths, i, texts[i]); }
    }
  }

  ghost function RowTexts(values: seq<string>, nullValue: string, widths: seq<int>,
                          rightAligned: seq<bool>, header: bool): (r: seq<string>)
    requires |rightAligned| == |widths| && forall i :: 0 <= i < |widths| ==> widths[i] >= 0
    ensures |r| == |widths|
  {
    seq(|widths|, i requires 0 <= i < |widths| =>
      Padded(if i < |values| then values[i] else "", nullValue, widths[i], rightAligned[i] && !header))
  }

  /** One cell as the row loop builds it. */
  method PadCell(value: string, nullValue: string, width: int, right: bool) returns (text: string)
    requires width >= 0
    ensures text == Padded(value, nullValue, width, right)
  {
    var shown := value;
    if shown == "" && nullValue != "" {
      shown := nullValue;
    }
    shown := TruncateCell(shown, width);
    var cellWidth := |shown|;
    var pad := Spaces(Max(0, width - cellWidth));
    text := if right then pad + shown else shown + pad;
  }

  /** What stands in a cell: its value, or the null value if that is missing or empty. */
  function CellValue(values: seq<string>, j: nat, nullValue: string): string
  {
    if j < |values| && values[j] != "" then values[j] else nullValue
  }

  /** `text` shows `value` in `width` characters: aligned left or right among spaces if it fits,
      and otherwise cut so that an ellipsis takes the last place. */
  predicate Shows(text: string, value: string, width: int, right: bool)
  {
    && |text| == width
    && (|value| <= width ==>
          && (forall x :: 0 <= x < |value| ==> text[if right then width - |value| + x else x] == value[x])
          && (forall x :: 0 <= x < width && (if right then x < width - |value| else x >= |value|) ==> text[x] == ' '))
    && (|value| > width >= 1 ==>
          (forall x :: 0 <= x < width - 1 ==> text[x] == value[x]) && text[width - 1] == '\U{2026}')
  }

  lemma PaddedShows(value: string, nullValue: string, width: int, right: bool)
    requires width >= 0
    ensures Shows(Padded(value, nullValue, width, right), if value != "" then value else nullValue, width, right)
  {
  }

  /** The texts show the values, each in the width of its column. */
  ghost predicate TextsShow(texts: seq<string>, widths: seq<int>, values: seq<string>, nullValue: string,
                            rightAligned: seq<bool>, header: bool)
  {
    |texts| == |rightAligned| == |widths| && forall i :: 0 <= i < |widths| ==>
      Shows(texts[i], CellValue(values, i, nullValue), widths[i], rightAligned[i] && !header)
  }

  /** The line is as wide as the table and shows the values, each in its column, between separators. */
  ghost predicate LineShows(line: string, widths: seq<int>, sep: char, values: seq<string>, nullValue: string,
                            rightAligned: seq<bool>, header: bool)
  {
    exists texts ::
      && TextsShow(texts, widths, values, nullValue, rightAligned, header)
      && RowDrawn(line, widths, |widths|, sep, texts) && |line| == LineWidth(widths)
  }

  lemma RowTextsShow(values: seq<string>, nullValue: string, widths: seq<int>, rightAligned: seq<bool>, header: bool)
    requires |rightAligned| == |widths| && forall i :: 0 <= i < |widths| ==> widths[i] >= 0
    ensures TextsShow(RowTexts(values, nullValue, widths, rightAligned, header), widths, values, nullValue, rightAligned, header)
  {
    var texts := RowTexts(values, nullValue, widths, rightAligned, header);
    forall i | 0 <= i < |widths| ensures Shows(texts[i], CellValue(values, i, nullValue), widths[i], rightAligned[i] && !header) {
      PaddedShows(if i < |values| then values[i] else "", nullValue, widths[i], rightAligned[i] && !header);
    }
  }

  method RowLine(sep: char, widths: seq<int>, values: seq<string>, nullValue: string,
                 rightAligned: seq<bool>, header: bool) returns (line: string)
    requires |rightAligned| == |widths| && forall i :: 0 <= i < |widths| ==> widths[i] >= 0
    ensures LineShows(line, widths, sep, values, nullValue, rightAligned, header)
  {
    ghost var texts := RowTexts(values, nullValue, widths, rightAligned, header);
    line := [sep];
    for i := 0 to |widths|
      invariant RowDrawn(line, widths, i, sep, texts)
    {
      RowDrawnStep(line, widths, i, sep, texts);
      var value := "";
      if i < |values| {
        value := values[i];
      }
      var text := PadCell(value, nullValue, widths[i], rightAligned[i] && !header);
      assert text == texts[i];
      line := line + (" " + text + " " + [sep]);
    }
    assert widths[..|widths|] == widths;
    RowTextsShow(values, nullValue, widths, rightAligned, header);
  }

  function FrameChar(i: int, n: int, left: char, sep: char, right: char): char
  {
    if i == 0 then left else if i == n then right else sep
  }

  /** Between frame characters `i` and `i + 1` there is only the fill. */
  predicate FilledAt(line: string, widths: seq<int>, i: int, fill: char)
  {
    && 0 <= i < |widths| && 0 <= Bar(widths, i) && 0 <= widths[i] && Bar(widths, i) + 3 + widths[i] <= |line|
    && forall x :: Bar(widths, i) < x < Bar(widths, i) + 3 + widths[i] ==> line[x] == fill
  }

  /** The first `n` columns are drawn as a rule: frame characters at the offsets of a row's
      separators, and the fill everywhere else. */
  ghost predicate RuleDrawn(line: string, widths: seq<int>, n: nat, left: char, sep: char, right: char, fill: char)
    requires n <= |widths|
  {
    && |line| == Bar(widths, n) + 1
    && (forall i :: 0 <= i <= n ==> BarAt(line, widths, i, FrameChar(i, |widths|, left, sep, right)))
    && (forall i :: 0 <= i < n ==> FilledAt(line, widths, i, fill))
  }

  lemma FillAdded(line: string, widths: seq<int>, n: nat, fill: char, c: char)
    requires n < |widths| && widths[n] >= 0 && |line| == Bar(widths, n) + 1 && line != ""
    ensures var next := line + (seq(widths[n] + 2, _ => fill) + [c]);
            && FilledAt(next, widths, n, fill) && BarAt(next, widths, n + 1, c)
            && |next| == Bar(widths, n + 1) + 1
  {
    assert widths[..n + 1][..n] == widths[..n];
  }

  lemma RuleDrawnStep(line: string, widths: seq<int>, n: nat, left: char, sep: char, right: char, fill: char)
    requires n < |widths| && widths[n] >= 0
    requires RuleDrawn(line, widths, n, left, sep, right, fill)
    ensures RuleDrawn(line + (seq(widths[n] + 2, _ => fill) + [if n + 1 == |widths| then right else sep]), widths, n + 1,
                      left, sep, right, fill)
  {
    var c := if n + 1 == |widths| then right else sep;
    var next := line + (seq(widths[n] + 2, _ => fill) + [c]);
    assert BarAt(line, widths, n, FrameChar(n, |widths|, left, sep, right));
    FillAdded(line, widths, n, fill, c);
    forall i | 0 <= i <= n + 1
      ensures BarAt(next, widths, i, FrameChar(i, |widths|, left, sep, right))
    {
      if i <= n { assert BarAt(line, widths, i, FrameChar(i, |widths|, left, sep, right)); }
    }
    forall i | 0 <= i < n + 1 ensures FilledAt(next, widths, i, fill) {
      if i < n { assert FilledAt(line, widths, i, fill); }
    }
  }

  datatype Frame = Frame(left: char, sep: char, right: char)

  datatype Style = Style(top: Frame, mid: Frame, bottom: Frame, horizontal: char, vertical: char, markdown: bool)

  ghost predicate IsRule(line: string, widths: seq<int>, frame: Frame, fill: char)
  {
    |line| == LineWidth(widths) && RuleDrawn(line, widths, |widths|, frame.left, frame.sep, frame.right, fill)
  }

  /** A rule's frame characters stand at the same offsets as a row's. */
  method RuleLine(frame: Frame, fill: char, widths: seq<int>) returns (line: string)
    requires forall i :: 0 <= i < |widths| ==> widths[i] >= 0
    ensures IsRule(line, widths, frame, fill)
  {
    line := [frame.left];
    for i := 0 to |widths|
      invariant RuleDrawn(line, widths, i, frame.left, frame.sep, frame.right, fill)
    {
      RuleDrawnStep(line, widths, i, frame.left, frame.sep, frame.right, fill);
      var run := seq(widths[i] + 2, _ => fill);
      if i == |widths| - 1 {
        line := line + (run + [frame.right]);
      } else {
        line := line + (run + [frame.sep]);
      }
    }
    assert widths[..|widths|] == widths;
  }

  /** The lines show the first rows, in order. */
  ghost predicate RowsShow(lines: seq<string>, widths: seq<int>, sep: char, rows: seq<seq<string>>, nullValue: string,
                           rightAligned: seq<bool>)
  {
    |lines| <= |rows| && forall k :: 0 <= k < |lines| ==>
      LineShows(lines[k], widths, sep, rows[k], nullValue, rightAligned, false)
  }

  /** Header and rows in order, a rule after the header and, but for markdown, before and after all. */
  ghost predicate TableDrawn(lines: seq<string>, widths: seq<int>, columns: seq<string>, rows: seq<seq<string>>, shown: nat,
                             style: Style, nullValue: string, rightAligned: seq<bool>)
  {
    exists top, header, mid, body, bottom ::
      && lines == Stacked(style.markdown, top, header, mid, body, bottom) && |body| == shown
      && LineShows(header, widths, style.vertical, columns, nullValue, rightAligned, true)
      && RowsShow(body, widths, style.vertical, rows, nullValue, rightAligned)
      && IsRule(top, widths, style.top, style.horizontal)
      && IsRule(mid, widths, style.mid, style.horizontal)
      && IsRule(bottom, widths, style.bottom, style.horizontal)
  }

  function Stacked(markdown: bool, top: string, header: string, mid: string, body: seq<string>, bottom: string): seq<string>
  {
    if markdown then [header, mid] + body else [top, header, mid] + body + [bottom]
  }

  ghost predicate SameWidth(lines: seq<string>, width: int)
  {
    forall k :: 0 <= k < |lines| ==> |lines[k]| == width
  }

  lemma RowsShowAppend(lines: seq<string>, line: string, widths: seq<int>, sep: char, rows: seq<seq<string>>, nullValue: string,
                       rightAligned: seq<bool>)
    requires |lines| < |rows|
    requires RowsShow(lines, widths, sep, rows, nullValue, rightAligned)
    requires LineShows(line, widths, sep, rows[|lines|], nullValue, rightAligned, false)
    ensures RowsShow(lines + [line], widths, sep, rows, nullValue, rightAligned)
  {
    var all := lines + [line];
    forall k | 0 <= k < |all| ensures LineShows(all[k], widths, sep, rows[k], nullValue, rightAligned, false) {
      if k < |lines| {
        assert all[k] == lines[k] && LineShows(lines[k], widths, sep, rows[k], nullValue, rightAligned, false);
      } else {
        assert all[k] == line && k == |lines|;
      }
    }
  }

  method RenderRows(rows: seq<seq<string>>, style: Style, widths: seq<int>, nullValue: string,
                    rightAligned: seq<bool>) returns (lines: seq<string>)
    requires |rightAligned| == |widths| && forall i :: 0 <= i < |widths| ==> widths[i] >= 0
    ensures |lines| == |rows| && RowsShow(lines, widths, style.vertical, rows, nullValue, rightAligned)
  {
    lines := [];
    for k := 0 to |rows|
      invariant |lines| == k && RowsShow(lines, widths, style.vertical, rows, nullValue, rightAligned)
    {
      var line := RowLine(style.vertical, widths, rows[k], nullValue, rightAligned, false);
      RowsShowAppend(lines, line, widths, style.vertical, rows, nullValue, rightAligned);
      lines := lines + [line];
    }
  }

  lemma LineMeetsTarget(natural: seq<int>, target: int, w: seq<int>)
    requires IsLayout(natural, Available(|natural|, target), w)
    ensures target >= Chrome(|natural|) + |natural| ==>
            if Sum(natural) + Chrome(|natural|) <= target
            then LineWidth(w) <= target && w == natural
            else LineWidth(w) == target
  {
  }

  lemma StackedIs(top: string, header: string, mid: string, body: seq<string>, bottom: string)
    ensures Stacked(true, top, header, mid, body, bottom) == [header, mid] + body
    ensures Stacked(false, top, header, mid, body, bottom) == [top] + ([header, mid] + body) + [bottom]
  {
  }

  lemma StackedWidth(markdown: bool, top: string, header: string, mid: string, body: seq<string>, bottom: string, width: int)
    requires |top| == |header| == |mid| == |bottom| == width && SameWidth(body, width)
    ensures SameWidth(Stacked(markdown, top, header, mid, body, bottom), width)
  {
  }

  /** The lines of the table, given its column widths. */
  method RenderLines(columns: seq<string>, rows: seq<seq<string>>, style: Style, widths: seq<int>, nullValue: string,
                     rightAligned: seq<bool>) returns (lines: seq<string>)
    requires forall row :: row in rows ==> |row| <= |columns|
    requires |rightAligned| == |columns| == |widths| && forall i :: 0 <= i < |widths| ==> widths[i] >= 1
    ensures TableDrawn(lines, widths, columns, rows, |rows|, style, nullValue, rightAligned)
    ensures SameWidth(lines, LineWidth(widths))
  {
    var header := RowLine(style.vertical, widths, columns, nullValue, rightAligned, true);
    var mid := RuleLine(style.mid, style.horizontal, widths);
    var body := RenderRows(rows, style, widths, nullValue, rightAligned);
    var top := RuleLine(style.top, style.horizontal, widths);
    var bottom := RuleLine(style.bottom, style.horizontal, widths);
    lines := [header, mid] + body;
    if !style.markdown {
      lines := [top] + lines + [bottom];
    }
    StackedIs(top, header, mid, body, bottom);
    Assembled(columns, rows, style, widths, nullValue, rightAligned, top, header, mid, body, bottom);
    DrawnSameWidth(lines, widths, columns, rows, |rows|, style, nullValue, rightAligned);
  }

  lemma Assembled(columns: seq<string>, rows: seq<seq<string>>, style: Style, widths: seq<int>, nullValue: string,
                  rightAligned: seq<bool>, top: string, header: string, mid: string, body: seq<string>, bottom: string)
    requires LineShows(header, widths, style.vertical, columns, nullValue, rightAligned, true)
    requires RowsShow(body, widths, style.vertical, rows, nullValue, rightAligned)
    requires IsRule(top, widths, style.top, style.horizontal)
    requires IsRule(mid, widths, style.mid, style.horizontal)
    requires IsRule(bottom, widths, style.bottom, style.horizontal)
    ensures TableDrawn(Stacked(style.markdown, top, header, mid, body, bottom), widths, columns, rows, |body|, style,
                       nullValue, rightAligned)
  {
  }

  lemma ShownWidth(lines: seq<string>, widths: seq<int>, sep: char, rows: seq<seq<string>>, nullValue: string,
                   rightAligned: seq<bool>)
    requires RowsShow(lines, widths, sep, rows, nullValue, rightAligned)
    ensures SameWidth(lines, LineWidth(widths))
  {
    forall k | 0 <= k < |lines| ensures |lines[k]| == LineWidth(widths) {
      assert LineShows(lines[k], widths, sep, rows[k], nullValue, rightAligned, false);
    }
  }

  lemma DrawnSameWidth(lines: seq<string>, widths: seq<int>, columns: seq<string>, rows: seq<seq<string>>, shown: nat,
                       style: Style, nullValue: string, rightAligned: seq<bool>)
    requires TableDrawn(lines, widths, columns, rows, shown, style, nullValue, rightAligned)
    ensures SameWidth(lines, LineWidth(widths))
  {
    var top, header, mid, body, bottom :| lines == Stacked(style.markdown, top, header, mid, body, bottom)
      && LineShows(header, widths, style.vertical, columns, nullValue, rightAligned, true)
      && RowsShow(body, widths, style.vertical, rows, nullValue, rightAligned)
      && IsRule(top, widths, style.top, style.horizontal)
      && IsRule(mid, widths, style.mid, style.horizontal)
      && IsRule(bottom, widths, style.bottom, style.horizontal);
    ShownWidth(body, widths, style.vertical, rows, nullValue, rightAligned);
    StackedWidth(style.markdown, top, header, mid, body, bottom, LineWidth(widths));
  }

  // ----- Visible rows -----

  function VisibleRow(row: seq<string>, n: nat, nullValue: string): (r: seq<string>)
  {
    seq(n, j requires 0 <= j < n => CellValue(row, j, nullValue))
  }

  /** A positive `maxRows` limits the rows shown. */
  function Shown(rows: seq<seq<string>>, maxRows: int): (r: nat)
    ensures r <= |rows|
  {
    if 0 < maxRows < |rows| then maxRows else |rows|
  }

  function Visible(rows: seq<seq<string>>, n: nat, nullValue: string, maxRows: int): (r: seq<seq<string>>)
    ensures |r| == Shown(rows, maxRows) && forall row :: row in r ==> |row| == n
  {
    seq(Shown(rows, maxRows), i requires 0 <= i < Shown(rows, maxRows) => VisibleRow(rows[i], n, nullValue))
  }

  /** Rows are cut or filled to the number of columns. */
  method VisibleRows(rows: seq<seq<string>>, n: nat, nullValue: string, maxRows: int) returns (visible: seq<seq<string>>)
    ensures visible == Visible(rows, n, nullValue, maxRows)
    ensures |visible| == if 0 < maxRows < |rows| then maxRows else |rows|
    ensures forall i, j :: 0 <= i < |visible| && 0 <= j < n ==>
      visible[i][j] == if j < |rows[i]| && rows[i][j] != "" then rows[i][j] else nullValue
  {
    var limit := |rows|;
    if maxRows > 0 && maxRows < limit {
      limit := maxRows;
    }
    visible := [];
    for i := 0 to limit
      invariant |visible| == i && forall k :: 0 <= k < i ==> visible[k] == VisibleRow(rows[k], n, nullValue)
    {
      var r := [];
      for j := 0 to n
        invariant |r| == j && forall q :: 0 <= q < j ==> r[q] == CellValue(rows[i], q, nullValue)
      {
        var cell := "";
        if j < |rows[i]| {
          cell := rows[i][j];
        }
        if cell == "" && nullValue != "" {
          cell := nullValue;
        }
        r := r + [cell];
      }
      assert r == VisibleRow(rows[i], n, nullValue);
      visible := visible + [r];
    }
  }

  lemma ShowsInput(line: string, widths: seq<int>, sep: char, row: seq<string>, nullValue: string, rightAligned: seq<bool>)
    requires LineShows(line, widths, sep, VisibleRow(row, |widths|, nullValue), nullValue, rightAligned, false)
    ensures LineShows(line, widths, sep, row, nullValue, rightAligned, false)
  {
    var visible := VisibleRow(row, |widths|, nullValue);
    var texts :| TextsShow(texts, widths, visible, nullValue, rightAligned, false)
      && RowDrawn(line, widths, |widths|, sep, texts) && |line| == LineWidth(widths);
    assert forall i :: 0 <= i < |widths| ==> CellValue(visible, i, nullValue) == CellValue(row, i, nullValue);
    assert TextsShow(texts, widths, row, nullValue, rightAligned, false);
  }

  lemma DrawnFromInput(lines: seq<string>, widths: seq<int>, columns: seq<string>, rows: seq<seq<string>>,
                       maxRows: int, style: Style, nullValue: string, rightAligned: seq<bool>)
    requires var visible := Visible(rows, |widths|, nullValue, maxRows);
             TableDrawn(lines, widths, columns, visible, |visible|, style, nullValue, rightAligned)
    ensures TableDrawn(lines, widths, columns, rows, Shown(rows, maxRows), style, nullValue, rightAligned)
  {
    var visible := Visible(rows, |widths|, nullValue, maxRows);
    var top, header, mid, body, bottom :| lines == Stacked(style.markdown, top, header, mid, body, bottom)
      && |body| == |visible|
      && LineShows(header, widths, style.vertical, columns, nullValue, rightAligned, true)
      && RowsShow(body, widths, style.vertical, visible, nullValue, rightAligned)
      && IsRule(top, widths, style.top, style.horizontal)
      && IsRule(mid, widths, style.mid, style.horizontal)
      && IsRule(bottom, widths, style.bottom, style.horizontal);
    forall k | 0 <= k < |body| ensures LineShows(body[k], widths, style.vertical, rows[k], nullValue, rightAligned, false) {
      assert LineShows(body[k], widths, style.vertical, visible[k], nullValue, rightAligned, false);
      ShowsInput(body[k], widths, style.vertical, rows[k], nullValue, rightAligned);
    }
  }

  /** All lines of a rendered table are equally wide: exactly the target whenever the
      columns, with null values in place, did not fit, at most the target when they did,
      provided the target has room for one character per column. */
  method RenderTable(columns: seq<string>, rows: seq<seq<string>>, style: Style, nullValue: string, maxRows: int,
                     rightAligned: seq<bool>, target: int) returns (lines: seq<string>, widths: seq<int>)
    requires |rightAligned| == |columns| && target > 0
    ensures var natural := Naturals(columns, Visible(rows, |columns|, nullValue, maxRows));
            && IsLayout(natural, Available(|columns|, target), widths)
            && (target >= Chrome(|columns|) + |columns| ==>
                  if Sum(natural) + Chrome(|columns|) <= target then LineWidth(widths) <= target && widths == natural
                  else LineWidth(widths) == target)
    ensures TableDrawn(lines, widths, columns, rows, if 0 < maxRows < |rows| then maxRows else |rows|, style, nullValue, rightAligned)
    ensures SameWidth(lines, LineWidth(widths))
  {
    var visible := VisibleRows(rows, |columns|, nullValue, maxRows);
    var w := ColumnWidths(columns, visible, target, 0);
    widths := w[..];
    LineMeetsTarget(Naturals(columns, visible), target, widths);
    lines := RenderLines(columns, visible, style, widths, nullValue, rightAligned);
    DrawnFromInput(lines, widths, columns, rows, maxRows, style, nullValue, rightAligned);
  }
}
