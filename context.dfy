/** print_words_context in spellcheck.py: the lines of a file that contain a
    flagged word, with every occurrence of the word highlighted, shown with
    one line of context on either side, numbered, and with a separator row
    between blocks that are not adjacent in the file.

    The file's lines are an input (reading the file is not modelled) and the
    rows that would be printed are returned instead of printed. */
module Context {
  import opened Text
  import opened Results

  const Esc: char := '\U{1B}'
  /** The ANSI escape sequences the report uses: "\033[31m", "\033[34m"
      and "\033[0m", character for character. */
  const Red: string := [Esc] + "[31m"
  const Blue: string := [Esc] + "[34m"
  const Reset: string := [Esc] + "[0m"

  /** `sorted(set())[0]` raises IndexError when no line matches. */
  datatype ContextError = NoMatchingLine

  /** One printed row: a separator before a gap, or the numbered file line
      `index` (zero-based). */
  datatype Row = Gap | Line(index: nat)

  /** What print_words_context prints: the rows, and the stored lines (after
      highlighting) that the numbered rows show. */
  datatype Printout = Printout(rows: seq<Row>, content: seq<string>)

  /** The highlighted form of a flagged word: RED + word + RESET. */
  function Wrap(word: string): string {
    Red + word + Reset
  }

  /** Some flagged word occurs in `line` as a plain substring. */
  predicate IsMatch(line: string, words: seq<string>) {
    exists k :: 0 <= k < |words| && Contains(line, words[k])
  }

  /** The stored line after the flagged words have been applied in list
      order: each word that occurs in the ORIGINAL `line` has every
      occurrence in the line produced by the words before it wrapped. */
  function Highlight(line: string, words: seq<string>): string
    decreases |words|
  {
    if words == [] then line
    else
      var previous := Highlight(line, words[..|words| - 1]);
      var word := words[|words| - 1];
      if Contains(line, word) then Replace(previous, word, Wrap(word)) else previous
  }

  /** A line in which no flagged word occurs is stored unchanged. */
  lemma {:induction false} HighlightUnchanged(line: string, words: seq<string>)
    requires !IsMatch(line, words)
    ensures Highlight(line, words) == line
    decreases |words|
  {
    if words != [] {
      var front := words[..|words| - 1];
      assert !IsMatch(line, front) by {
        forall k | 0 <= k < |front| ensures !Contains(line, front[k]) {
          assert front[k] == words[k];
        }
      }
      HighlightUnchanged(line, front);
    }
  }

  /** With a single flagged word that occurs in the line, the stored line
      shows the word highlighted at least once. */
  lemma HighlightWraps(line: string, word: string)
    requires Contains(line, word)
    ensures Contains(Highlight(line, [word]), Wrap(word))
  {
    assert [word][..0] == [];
  }

  /** Deletes every RED and RESET marker, scanning from the left. */
  function Unmark(s: string): string
    decreases |s|
  {
    if s == [] then []
    else if s[0] != Esc then [s[0]] + Unmark(s[1..])
    else if IsPrefix(Red, s) then Unmark(s[|Red|..])
    else if IsPrefix(Reset, s) then Unmark(s[|Reset|..])
    else [s[0]] + Unmark(s[1..])
  }

  lemma UnmarkRed(t: string)
    ensures Unmark(Red + t) == Unmark(t)
  {
    assert IsPrefix(Red, Red + t);
    assert (Red + t)[|Red|..] == t;
  }

  lemma UnmarkReset(t: string)
    ensures Unmark(Reset + t) == Unmark(t)
  {
    assert !IsPrefix(Red, Reset + t) by {
      assert (Reset + t)[1] != Red[1] || (Reset + t)[2] != Red[2];
    }
    assert IsPrefix(Reset, Reset + t);
    assert (Reset + t)[|Reset|..] == t;
  }

  lemma UnmarkChar(c: char, t: string)
    requires c != Esc
    ensures Unmark([c] + t) == [c] + Unmark(t)
  {
    assert ([c] + t)[0] != Red[0] && ([c] + t)[0] != Reset[0];
    assert ([c] + t)[1..] == t;
  }

  /** Text without escape characters passes through `Unmark` untouched. */
  lemma {:induction false} UnmarkPlain(w: string, t: string)
    requires Esc !in w
    ensures Unmark(w + t) == w + Unmark(t)
  {
    if w == [] {
      assert w + t == t;
    } else {
      var c, v := w[0], w[1..];
      assert Esc !in v by {
        assert forall i :: 0 <= i < |v| ==> v[i] == w[i + 1];
      }
      UnmarkPlain(v, t);
      assert w + t == [c] + (v + t);
      UnmarkChar(c, v + t);
      assert w + Unmark(t) == [c] + (v + Unmark(t));
    }
  }

  /** Deleting the markers around a wrapped word leaves the word. */
  lemma UnmarkWrap(w: string, t: string)
    requires Esc !in w
    ensures Unmark(Wrap(w) + t) == w + Unmark(t)
  {
    assert Wrap(w) + t == Red + (w + (Reset + t));
    UnmarkRed(w + (Reset + t));
    UnmarkPlain(w, Reset + t);
    UnmarkReset(t);
  }

  lemma EscFreeTail(s: string, n: nat)
    requires Esc !in s && n <= |s|
    ensures Esc !in s[n..]
  {
    assert forall i :: 0 <= i < |s| - n ==> s[n..][i] == s[n + i];
  }

  /** One step of an empty word: markers, then the next character. */
  lemma UnmarkInsertStep(s: string, rest: string)
    requires s != [] && Esc !in s && Unmark(rest) == s[1..]
    ensures Unmark(Wrap([]) + [s[0]] + rest) == s
  {
    assert Wrap([]) + [s[0]] + rest == Wrap([]) + ([s[0]] + rest);
    UnmarkWrap([], [s[0]] + rest);
    UnmarkChar(s[0], rest);
    assert s == [s[0]] + s[1..];
  }

  /** One step at an occurrence of the word. */
  lemma UnmarkMatchStep(s: string, w: string, rest: string)
    requires IsPrefix(w, s) && Esc !in w && Unmark(rest) == s[|w|..]
    ensures Unmark(Wrap(w) + rest) == s
  {
    UnmarkWrap(w, rest);
    assert s == w + s[|w|..];
  }

  /** One step past a character where the word does not start. */
  lemma UnmarkSkipStep(s: string, rest: string)
    requires s != [] && Esc !in s && Unmark(rest) == s[1..]
    ensures Unmark([s[0]] + rest) == s
  {
    UnmarkChar(s[0], rest);
    assert s == [s[0]] + s[1..];
  }

  /** Highlighting one word is undone by deleting the markers, as long as
      neither the line nor the word holds an escape character. */
  lemma {:induction false} UnmarkWrapped(s: string, w: string)
    requires Esc !in s && Esc !in w
    ensures Unmark(Replace(s, w, Wrap(w))) == s
    decreases |s|
  {
    if w == [] {
      if s == [] {
        UnmarkWrap(w, []);
        assert Replace(s, w, Wrap(w)) == Wrap(w) + [];
      } else {
        EscFreeTail(s, 1);
        UnmarkWrapped(s[1..], w);
        var rest := Replace(s[1..], w, Wrap(w));
        assert Replace(s, w, Wrap(w)) == Wrap([]) + [s[0]] + rest;
        UnmarkInsertStep(s, rest);
      }
    } else if IsPrefix(w, s) {
      EscFreeTail(s, |w|);
      UnmarkWrapped(s[|w|..], w);
      var rest := Replace(s[|w|..], w, Wrap(w));
      assert Replace(s, w, Wrap(w)) == Wrap(w) + rest;
      UnmarkMatchStep(s, w, rest);
    } else if s != [] {
      EscFreeTail(s, 1);
      UnmarkWrapped(s[1..], w);
      var rest := Replace(s[1..], w, Wrap(w));
      assert Replace(s, w, Wrap(w)) == [s[0]] + rest;
      UnmarkSkipStep(s, rest);
    }
  }

  /** With a single flagged word, deleting the markers gives back the
      original line. */
  lemma HighlightOneWordReversible(line: string, w: string)
    requires Esc !in line && Esc !in w
    ensures Unmark(Highlight(line, [w])) == line
  {
    assert [w][..0] == [];
    if Contains(line, w) {
      UnmarkWrapped(line, w);
    } else {
      UnmarkPlain(line, []);
      assert line + [] == line;
    }
  }

  /** The first loop of print_words_context: every stored line is replaced
      by its highlighted form, in place, and the indices of the lines that
      contain a flagged word are collected. */
  method HighlightLines(content: array<string>, words: seq<string>) returns (matchLines: set<nat>)
    modifies content
    ensures forall i: nat :: i in matchLines <==> i < content.Length && IsMatch(old(content[i]), words)
    ensures forall i :: 0 <= i < content.Length ==> content[i] == Highlight(old(content[i]), words)
  {
    matchLines := {};
    for index := 0 to content.Length
      invariant forall i: nat :: i in matchLines <==> i < index && IsMatch(old(content[i]), words)
      invariant forall i :: 0 <= i < index ==> content[i] == Highlight(old(content[i]), words)
      invariant forall i :: index <= i < content.Length ==> content[i] == old(content[i])
    {
      var line := content[index];
      var newContentLine := content[index];
      for k := 0 to |words|
        invariant newContentLine == Highlight(line, words[..k])
        invariant forall i: nat :: i in matchLines <==>
                    (i < index && IsMatch(old(content[i]), words)) || (i == index && IsMatch(line, words[..k]))
      {
        var word := words[k];
        assert words[..k + 1][..k] == words[..k] && words[..k + 1][k] == word;
        if Contains(line, word) {
          matchLines := matchLines + {index};
          newContentLine := Replace(newContentLine, word, Wrap(word));
        }
        if IsMatch(line, words[..k + 1]) && !Contains(line, word) {
          var j :| 0 <= j < k + 1 && Contains(line, words[..k + 1][j]);
          assert words[..k][j] == words[..k + 1][j];
        }
        if IsMatch(line, words[..k]) {
          var j :| 0 <= j < k && Contains(line, words[..k][j]);
          assert words[..k + 1][j] == words[..k][j];
        }
      }
      assert words[..|words|] == words;
      content[index] := newContentLine;
    }
  }

  /** Line `p` is one of `marked` or next to one of them. */
  predicate Near(p: nat, marked: set<nat>) {
    p in marked || p + 1 in marked || (p > 0 && p - 1 in marked)
  }

  /** Handling match line `m` adds `m` and its neighbours inside the file. */
  lemma ContextStep(before: set<nat>, after: set<nat>, done: set<nat>, m: nat, n: nat)
    requires m < n
    requires forall p: nat :: p in before <==> p < n && Near(p, done)
    requires after == before + Below(m) + Above(m, n) + {m}
    ensures forall p: nat :: p in after <==> p < n && Near(p, done + {m})
  {
    forall p: nat ensures p in after <==> p < n && Near(p, done + {m}) {
      assert Near(p, done + {m}) <==> Near(p, done) || p == m || p + 1 == m || p == m + 1;
    }
  }

  /** The line before `m`, if there is one. */
  function Below(m: nat): set<nat> {
    if m > 0 then {m - 1} else {}
  }

  /** The line after `m`, if the file has one. */
  function Above(m: nat, n: nat): set<nat> {
    if m < n - 1 then {m + 1} else {}
  }

  /** The second loop of print_words_context: each match line together
      with the line before and the line after it, where those exist. */
  method ContextLines(matchLines: set<nat>, lineCount: nat) returns (printLines: set<nat>)
    requires forall m :: m in matchLines ==> m < lineCount
    ensures forall p: nat :: p in printLines <==> p < lineCount && Near(p, matchLines)
  {
    printLines := {};
    var todo := matchLines;
    ghost var done: set<nat> := {};
    while todo != {}
      invariant todo <= matchLines && done == matchLines - todo
      invariant forall p: nat :: p in printLines <==> p < lineCount && Near(p, done)
      decreases todo
    {
      var matchLine :| matchLine in todo;
      ghost var before := printLines;
      if matchLine > 0 {
        printLines := printLines + {matchLine - 1};
      }
      assert printLines == before + Below(matchLine);
      if matchLine < lineCount - 1 {
        printLines := printLines + {matchLine + 1};
      }
      assert printLines == before + Below(matchLine) + Above(matchLine, lineCount);
      printLines := printLines + {matchLine};
      ContextStep(before, printLines, done, matchLine, lineCount);
      assert matchLines - (todo - {matchLine}) == done + {matchLine};
      todo := todo - {matchLine};
      done := done + {matchLine};
    }
  }

  predicate Ascending(xs: seq<nat>) {
    forall a, b :: 0 <= a < b < |xs| ==> xs[a] < xs[b]
  }

  /** The least element of a non-empty set of natural numbers. */
  ghost function Least(s: set<nat>): (m: nat)
    requires s != {}
    ensures m in s && forall y :: y in s ==> m <= y
    decreases s
  {
    var x :| x in s;
    var rest := s - {x};
    assert forall y :: y in s ==> y == x || y in rest;
    if rest == {} then x
    else
      var m := Least(rest);
      if x < m then x else m
  }

  /** sorted(s): the elements of the set, each once, in ascending order. */
  method SortAscending(s: set<nat>) returns (order: seq<nat>)
    ensures Ascending(order)
    ensures forall x :: x in order <==> x in s
  {
    order := [];
    var rest := s;
    while rest != {}
      invariant rest <= s
      invariant forall x :: x in order <==> x in s && x !in rest
      invariant Ascending(order)
      invariant forall a, y :: 0 <= a < |order| && y in rest ==> order[a] < y
      decreases rest
    {
      ghost var least := Least(rest);
      var m :| m in rest && forall y :: y in rest ==> m <= y;
      order := order + [m];
      rest := rest - {m};
    }
  }

  /** The line numbers of the numbered rows, in the order they are printed. */
  ghost function Printed(rows: seq<Row>): seq<nat> {
    if rows == [] then []
    else
      var last := rows[|rows| - 1];
      Printed(rows[..|rows| - 1]) + (if last.Line? then [last.index] else [])
  }

  /** Every numbered row's line is among the printed line numbers. */
  lemma {:induction false} PrintedIndices(rows: seq<Row>)
    ensures forall k :: 0 <= k < |rows| && rows[k].Line? ==> rows[k].index in Printed(rows)
  {
    if rows != [] {
      var front := rows[..|rows| - 1];
      PrintedIndices(front);
      forall k | 0 <= k < |rows| - 1 && rows[k].Line? ensures rows[k].index in Printed(rows) {
        assert rows[k] == front[k];
      }
    }
  }

  ghost predicate MatchLine(lines: seq<string>, words: seq<string>, i: int) {
    0 <= i < |lines| && IsMatch(lines[i], words)
  }

  /** A line that is printed: a match line or a neighbour of one. */
  ghost predicate ContextLine(lines: seq<string>, words: seq<string>, p: int) {
    && 0 <= p < |lines|
    && (MatchLine(lines, words, p - 1) || MatchLine(lines, words, p) || MatchLine(lines, words, p + 1))
  }

  /** Between neighbouring rows: a separator is preceded and followed by a
      numbered row, the two lines around a separator are not adjacent in
      the file, and two numbered rows with nothing between them are. */
  ghost predicate Separated(rows: seq<Row>) {
    && (forall a, b :: 0 <= a && b == a + 1 && b < |rows| && rows[b].Gap? ==> rows[a].Line?)
    && (forall a, b :: 0 <= a && b == a + 1 && b < |rows| && rows[a].Gap? ==> rows[b].Line?)
    && (forall a, g, b ::
          0 <= a && g == a + 1 && b == g + 1 && b < |rows| && rows[g].Gap? && rows[a].Line? && rows[b].Line?
          ==> rows[b].index > rows[a].index + 1)
    && (forall a, b :: 0 <= a && b == a + 1 && b < |rows| && rows[a].Line? && rows[b].Line? ==>
          rows[b].index <= rows[a].index + 1)
  }

  /** The report starts and ends with a numbered row; a separator stands
      exactly between two printed lines that are not adjacent in the file. */
  ghost predicate GapsMarked(rows: seq<Row>) {
    rows != [] && rows[0].Line? && rows[|rows| - 1].Line? && Separated(rows)
  }

  /** The rows built so far: separated as in the report, though the last
      row may still be a separator. */
  ghost predicate Layout(rows: seq<Row>) {
    (rows != [] ==> rows[0].Line?) && Separated(rows)
  }

  /** A numbered row may follow a numbered row of the line before it or of
      an earlier line, or a separator that follows a line at least two
      before it. */
  ghost predicate MayFollow(rows: seq<Row>, i: nat) {
    rows != [] ==>
      (rows[|rows| - 1].Line? && i <= rows[|rows| - 1].index + 1)
      || (|rows| >= 2 && rows[|rows| - 1].Gap? && rows[|rows| - 2].Line? && i > rows[|rows| - 2].index + 1)
  }

  lemma LayoutGap(rows: seq<Row>, i: nat)
    requires Layout(rows) && rows != [] && rows[|rows| - 1].Line? && i > rows[|rows| - 1].index + 1
    ensures Layout(rows + [Gap]) && MayFollow(rows + [Gap], i)
  {
  }

  lemma LayoutLine(rows: seq<Row>, i: nat)
    requires Layout(rows) && MayFollow(rows, i)
    ensures Layout(rows + [Line(i)])
  {
  }

  /** The rows printed for the lines `order`, in that order: a numbered
      row per line, preceded by a separator when the line is more than one
      past the line printed before it. */
  function Rows(order: seq<nat>): seq<Row> {
    if order == [] then []
    else
      var previous := order[..|order| - 1];
      var p := order[|order| - 1];
      if previous != [] && p > previous[|previous| - 1] + 1
      then Rows(previous) + [Gap, Line(p)]
      else Rows(previous) + [Line(p)]
  }

  /** The rows number exactly the given lines, in the given order, and end
      with the last of them. */
  lemma {:induction false} RowsPrinted(order: seq<nat>)
    ensures Printed(Rows(order)) == order
    ensures order != [] ==> Rows(order) != [] && Rows(order)[|Rows(order)| - 1] == Line(order[|order| - 1])
  {
    if order != [] {
      var previous := order[..|order| - 1];
      var p := order[|order| - 1];
      RowsPrinted(previous);
      var rows := Rows(previous);
      var all := Rows(order);
      if previous != [] && p > previous[|previous| - 1] + 1 {
        assert all[..|all| - 1] == rows + [Gap] && (rows + [Gap])[..|rows|] == rows;
      } else {
        assert all[..|all| - 1] == rows;
      }
      assert previous + [p] == order;
    }
  }

  /** Separators stand exactly between lines that are not adjacent. */
  lemma {:induction false} RowsLayout(order: seq<nat>)
    ensures Layout(Rows(order))
    ensures order != [] ==> GapsMarked(Rows(order))
  {
    if order != [] {
      var previous := order[..|order| - 1];
      var p := order[|order| - 1];
      RowsLayout(previous);
      RowsPrinted(previous);
      RowsPrinted(order);
      var rows := Rows(previous);
      if previous != [] && p > previous[|previous| - 1] + 1 {
        LayoutGap(rows, p);
        LayoutLine(rows + [Gap], p);
        assert rows + [Gap] + [Line(p)] == rows + [Gap, Line(p)];
      } else {
        LayoutLine(rows, p);
      }
    }
  }

  /** The third loop of print_words_context, which starts from the first
      printed line. */
  method NumberRows(order: seq<nat>) returns (rows: seq<Row>)
    requires order != []
    ensures rows == Rows(order)
  {
    var lastPrintLine: int := order[0];
    rows := [];
    for j := 0 to |order|
      invariant rows == Rows(order[..j])
      invariant lastPrintLine == if j == 0 then order[0] else order[j - 1]
    {
      var printLine: nat := order[j];
      assert order[..j + 1][..j] == order[..j] && order[..j + 1][j] == printLine;
      if printLine - lastPrintLine > 1 {
        rows := rows + [Gap];
      }
      rows := rows + [Line(printLine)];
      lastPrintLine := printLine;
    }
    assert order[..|order|] == order;
  }

  /** A context line has a match line at most one line away. */
  lemma ContextHasMatch(lines: seq<string>, words: seq<string>, p: int)
    requires ContextLine(lines, words, p)
    ensures exists i :: p - 1 <= i <= p + 1 && 0 <= i < |lines| && IsMatch(lines[i], words)
  {
    if MatchLine(lines, words, p - 1) {
      assert IsMatch(lines[p - 1], words);
    } else if MatchLine(lines, words, p) {
      assert IsMatch(lines[p], words);
    } else {
      assert IsMatch(lines[p + 1], words);
    }
  }

  /** The lines printed around the match lines are exactly the context
      lines: a line of the file that is a match line or next to one. */
  lemma NearIsContext(lines: seq<string>, words: seq<string>, matchLines: set<nat>, p: nat)
    requires forall i: nat :: i in matchLines <==> i < |lines| && IsMatch(lines[i], words)
    ensures p < |lines| && Near(p, matchLines) <==> ContextLine(lines, words, p)
  {
    if p > 0 {
      assert (p - 1) in matchLines <==> MatchLine(lines, words, p - 1);
    }
    assert p in matchLines <==> MatchLine(lines, words, p);
    assert p + 1 in matchLines <==> MatchLine(lines, words, p + 1);
  }

  /** print_words_context(lines, words): what it prints, or the IndexError
      it raises when no line contains a flagged word. */
  method PrintWordsContext(lines: seq<string>, words: seq<string>) returns (r: Result<Printout, ContextError>)
    ensures r.Err? <==> forall i :: 0 <= i < |lines| ==> !IsMatch(lines[i], words)
    ensures r.Ok? ==> |r.value.content| == |lines|
                      && forall i :: 0 <= i < |lines| ==> r.value.content[i] == Highlight(lines[i], words)
    ensures r.Ok? ==> Ascending(Printed(r.value.rows))
    ensures r.Ok? ==> forall p :: p in Printed(r.value.rows) <==> ContextLine(lines, words, p)
    ensures r.Ok? ==> GapsMarked(r.value.rows)
    ensures r.Ok? ==> forall k :: 0 <= k < |r.value.rows| && r.value.rows[k].Line? ==> r.value.rows[k].index < |r.value.content|
  {
    var content := new string[|lines|](i requires 0 <= i < |lines| => lines[i]);
    assert forall i :: 0 <= i < content.Length ==> content[i] == lines[i];
    var matchLines := HighlightLines(content, words);
    var highlighted := content[..];
    assert |highlighted| == |lines| && forall i :: 0 <= i < |lines| ==> highlighted[i] == Highlight(lines[i], words);
    var printLines := ContextLines(matchLines, content.Length);
    forall p: nat ensures p in printLines <==> ContextLine(lines, words, p) {
      NearIsContext(lines, words, matchLines, p);
    }
    var order := SortAscending(printLines);
    assert forall i :: 0 <= i < |lines| && IsMatch(lines[i], words) ==> ContextLine(lines, words, i);
    if |order| == 0 {
      return Err(NoMatchingLine);
    }
    assert order[0] in printLines;
    ContextHasMatch(lines, words, order[0]);
    var rows := NumberRows(order);
    RowsPrinted(order);
    RowsLayout(order);
    PrintedIndices(rows);
    r := Ok(Printout(rows, highlighted));
  }

  /** len(str(len(content_lines) + 1)): the width of the line-number column. */
  function LabelWidth(lineCount: nat): nat {
    |Decimal(lineCount + 1)|
  }

  /** f"{index + 1:{width}}:" */
  function Label(index: nat, width: nat): string {
    PadLeft(Decimal(index + 1), width) + ":"
  }

  /** Every label of a printed line fits the column: the number is never
      wider than the column, so all labels have the same length and their
      digits read back as the one-based line number. */
  lemma LabelFits(index: nat, lineCount: nat)
    requires index < lineCount
    ensures |Decimal(index + 1)| <= LabelWidth(lineCount)
    ensures |Label(index, LabelWidth(lineCount))| == LabelWidth(lineCount) + 1
    ensures DecimalValue(Label(index, LabelWidth(lineCount))[LabelWidth(lineCount) - |Decimal(index + 1)|..LabelWidth(lineCount)]) == index + 1
  {
    DecimalLengthMonotone(index + 1, lineCount + 1);
    DecimalRoundTrip(index + 1);
    var w := LabelWidth(lineCount);
    var shown := Label(index, w);
    assert shown[w - |Decimal(index + 1)|..w] == Decimal(index + 1);
  }

  /** The text one row prints. */
  function RenderRow(row: Row, width: nat, content: seq<string>): string
    requires row.Line? ==> row.index < |content|
  {
    match row
    case Gap => Blue + Repeat('-', width) + Reset + "\n"
    case Line(index) => Blue + Label(index, width) + Reset + " " + content[index]
  }

  /** Everything print_words_context writes, including the final empty
      print(); the column width comes from the number of stored lines. */
  function Render(out: Printout): string
    requires forall k :: 0 <= k < |out.rows| && out.rows[k].Line? ==> out.rows[k].index < |out.content|
    decreases |out.rows|
  {
    if out.rows == [] then "\n"
    else
      RenderRow(out.rows[0], LabelWidth(|out.content|), out.content)
        + Render(Printout(out.rows[1..], out.content))
  }
}
