/** The parts of Python's `str` behaviour that spellcheck.py relies on:
    whitespace, strip(), split("\n"), the `in` operator, replace() and
    integer formatting. Strings are sequences of Unicode scalar values. */
module Text {

  /** str.isspace() for one character; the regular-expression class `\s`
      over str patterns uses the same table. */
  predicate IsSpace(c: char) {
    || c == ' '
    || ('\t' <= c <= '\r')
    || ('\U{1C}' <= c <= '\U{1F}')
    || c == '\U{85}' || c == '\U{A0}' || c == '\U{1680}'
    || ('\U{2000}' <= c <= '\U{200A}')
    || c == '\U{2028}' || c == '\U{2029}' || c == '\U{202F}' || c == '\U{205F}'
    || c == '\U{3000}'
  }

  predicate AllSpace(s: string) {
    forall i :: 0 <= i < |s| ==> IsSpace(s[i])
  }

  /** Every character of `s` from index `lo` up to `hi` is whitespace. */
  predicate SpaceBetween(s: string, lo: int, hi: int) {
    forall i :: lo <= i < hi && 0 <= i < |s| ==> IsSpace(s[i])
  }

  /** The index of the first non-whitespace character of `s` at or after
      `i`, or `|s|` when there is none. */
  function SkipSpaceForward(s: string, i: nat): (r: nat)
    requires i <= |s|
    ensures i <= r <= |s| && SpaceBetween(s, i, r)
    ensures r < |s| ==> !IsSpace(s[r])
    decreases |s| - i
  {
    if i < |s| && IsSpace(s[i]) then SkipSpaceForward(s, i + 1) else i
  }

  /** The index just past the last non-whitespace character of `s` before
      `j` and not before `lo`, or `lo` when there is none. */
  function SkipSpaceBackward(s: string, lo: nat, j: nat): (r: nat)
    requires lo <= j <= |s|
    ensures lo <= r <= j && SpaceBetween(s, r, j)
    ensures r > lo ==> !IsSpace(s[r - 1])
    decreases j
  {
    if j > lo && IsSpace(s[j - 1]) then SkipSpaceBackward(s, lo, j - 1) else j
  }

  /** `r` is `s` with only whitespace around it, `i` characters of it in front. */
  predicate Trimmed(s: string, r: string, i: int) {
    0 <= i <= |s| - |r| && r == s[i..i + |r|] && SpaceBetween(s, 0, i) && SpaceBetween(s, i + |r|, |s|)
  }

  /** str.strip(): the infix of `s` that neither starts nor ends with
      whitespace and has only whitespace around it. */
  function Strip(s: string): (r: string)
    ensures r == [] <==> AllSpace(s)
    ensures r != [] ==> !IsSpace(r[0]) && !IsSpace(r[|r| - 1])
    ensures exists i :: Trimmed(s, r, i)
  {
    var i := SkipSpaceForward(s, 0);
    var j := SkipSpaceBackward(s, i, |s|);
    assert Trimmed(s, s[i..j], i);
    s[i..j]
  }

  /** Stripping brings in no character the string did not hold. */
  lemma StripKeepsOut(s: string, c: char)
    requires c !in s
    ensures c !in Strip(s)
  {
    var r := Strip(s);
    var k :| Trimmed(s, r, k);
    assert forall j :: 0 <= j < |r| ==> r[j] == s[k + j];
  }

  /** str.split(sep) with an explicit one-character separator: the pieces
      between separators, never an empty list. */
  function Split(s: string, sep: char): (r: seq<string>)
    ensures |r| >= 1
    ensures forall i :: 0 <= i < |r| ==> sep !in r[i]
  {
    if s == [] then [[]]
    else
      var rest := Split(s[1..], sep);
      if s[0] == sep then [[]] + rest
      else [[s[0]] + rest[0]] + rest[1..]
  }

  /** sep.join(pieces) */
  function Join(pieces: seq<string>, sep: char): string
    requires |pieces| >= 1
  {
    if |pieces| == 1 then pieces[0] else pieces[0] + [sep] + Join(pieces[1..], sep)
  }

  /** Joining the pieces of a split gives back the original string. */
  lemma {:induction false} JoinSplit(s: string, sep: char)
    ensures Join(Split(s, sep), sep) == s
  {
    if s != [] {
      JoinSplit(s[1..], sep);
      var rest := Split(s[1..], sep);
      if s[0] != sep {
        if |rest| == 1 {
          assert Join(Split(s, sep), sep) == [s[0]] + rest[0];
        } else {
          assert Split(s, sep)[1..] == rest[1..];
          assert Join(Split(s, sep), sep) == [s[0]] + rest[0] + [sep] + Join(rest[1..], sep);
        }
      }
    }
  }

  /** Splitting a separator-free string gives that string alone. */
  lemma {:induction false} SplitPlain(s: string, sep: char)
    requires sep !in s
    ensures Split(s, sep) == [s]
  {
    if s != [] {
      SplitPlain(s[1..], sep);
      assert s == [s[0]] + s[1..];
    }
  }

  /** Splitting a piece, a separator and a rest peels the piece off. */
  lemma {:induction false} SplitFirst(x: string, sep: char, y: string)
    requires sep !in x
    ensures Split(x + [sep] + y, sep) == [x] + Split(y, sep)
  {
    if x != [] {
      assert (x + [sep] + y)[1..] == x[1..] + [sep] + y;
      SplitFirst(x[1..], sep, y);
      assert x == [x[0]] + x[1..];
    } else {
      assert (x + [sep] + y)[1..] == y;
    }
  }

  /** Splitting what was joined gives back the pieces, when no piece holds
      the separator. */
  lemma {:induction false} SplitJoin(pieces: seq<string>, sep: char)
    requires |pieces| >= 1
    requires forall i :: 0 <= i < |pieces| ==> sep !in pieces[i]
    ensures Split(Join(pieces, sep), sep) == pieces
  {
    if |pieces| == 1 {
      SplitPlain(pieces[0], sep);
    } else {
      SplitJoin(pieces[1..], sep);
      SplitFirst(pieces[0], sep, Join(pieces[1..], sep));
    }
  }

  predicate IsPrefix(p: string, s: string) {
    |p| <= |s| && s[..|p|] == p
  }

  /** Python's `w in s`: `w` occurs in `s` as a contiguous substring
      (the empty string occurs in every string). */
  predicate Contains(s: string, w: string)
    decreases |s|
  {
    IsPrefix(w, s) || (s != [] && Contains(s[1..], w))
  }

  predicate OccursAt(s: string, w: string, i: int) {
    0 <= i <= |s| - |w| && s[i..i + |w|] == w
  }

  /** The recursive `Contains` is the usual "occurs at some position". */
  lemma {:induction false} ContainsAt(s: string, w: string)
    ensures Contains(s, w) <==> exists i :: OccursAt(s, w, i)
  {
    if s == [] {
      if IsPrefix(w, s) {
        assert OccursAt(s, w, 0);
      }
      if exists i :: OccursAt(s, w, i) {
        var i :| OccursAt(s, w, i);
        assert IsPrefix(w, s);
      }
    } else {
      ContainsAt(s[1..], w);
      if IsPrefix(w, s) {
        assert OccursAt(s, w, 0);
      }
      if Contains(s[1..], w) {
        var i :| OccursAt(s[1..], w, i);
        assert s[1..][i..i + |w|] == s[i + 1..i + 1 + |w|];
        assert OccursAt(s, w, i + 1);
      }
      if !IsPrefix(w, s) && exists i :: OccursAt(s, w, i) {
        var i :| OccursAt(s, w, i);
        assert i != 0;
        assert s[1..][i - 1..i - 1 + |w|] == s[i..i + |w|];
        assert OccursAt(s[1..], w, i - 1);
      }
    }
  }

  /** str.replace(pat, rep): every non-overlapping occurrence of `pat`,
      found from left to right, is replaced by `rep`; an empty `pat` puts
      `rep` before every character and at the end. A string without `pat`
      is returned unchanged, and once `pat` occurs, `rep` occurs in the
      result. */
  function Replace(s: string, pat: string, rep: string): (r: string)
    ensures pat != [] && !Contains(s, pat) ==> r == s
    ensures Contains(s, pat) ==> Contains(r, rep)
    decreases |s|
  {
    if pat == [] then
      if s == [] then rep
      else
        var tail := Replace(s[1..], pat, rep);
        assert IsPrefix(rep, rep + [s[0]] + tail);
        rep + [s[0]] + tail
    else if IsPrefix(pat, s) then
      var tail := Replace(s[|pat|..], pat, rep);
      assert IsPrefix(rep, rep + tail);
      rep + tail
    else if s == [] then []
    else
      var tail := Replace(s[1..], pat, rep);
      assert ([s[0]] + tail)[1..] == tail;
      [s[0]] + tail
  }

  /** Where `pat` does not start, the first character is kept. */
  lemma ReplaceSkip(s: string, pat: string, rep: string)
    requires pat != [] && s != [] && !IsPrefix(pat, s)
    ensures Replace(s, pat, rep) == [s[0]] + Replace(s[1..], pat, rep)
  {
  }

  /** The facts about `a + pat + b` that one step of `ReplaceSplit` needs:
      `pat` does not start it, and the rest of `a` still holds no earlier
      occurrence. */
  lemma ReplaceSplitStep(a: string, pat: string, b: string)
    requires a != [] && pat != [] && !Contains(a + pat[..|pat| - 1], pat)
    ensures !IsPrefix(pat, a + pat + b)
    ensures !Contains(a[1..] + pat[..|pat| - 1], pat)
    ensures (a + pat + b)[1..] == a[1..] + pat + b
  {
    var front := a + pat[..|pat| - 1];
    assert (a + pat + b)[..|pat|] == front[..|pat|];
    assert front[1..] == a[1..] + pat[..|pat| - 1];
  }

  /** The first occurrence sits at the very start. */
  lemma ReplaceAtStart(pat: string, b: string, rep: string)
    requires pat != []
    ensures Replace(pat + b, pat, rep) == rep + Replace(b, pat, rep)
  {
    assert (pat + b)[..|pat|] == pat && (pat + b)[|pat|..] == b;
  }

  /** Every occurrence is replaced, leftmost first: when the first
      occurrence of `pat` starts right after `a`, the result is `a`, then
      `rep`, then the rest replaced in the same way. Together with the
      unchanged case above this fixes `Replace` for a non-empty pattern. */
  lemma {:induction false} ReplaceSplit(a: string, pat: string, b: string, rep: string)
    requires pat != [] && !Contains(a + pat[..|pat| - 1], pat)
    ensures Replace(a + pat + b, pat, rep) == a + rep + Replace(b, pat, rep)
    decreases |a|
  {
    if a == [] {
      EmptyFront(a, pat);
      ReplaceAtStart(pat, b, rep);
      EmptyFront(a, rep);
    } else {
      ReplaceSplitStep(a, pat, b);
      ReplaceSplit(a[1..], pat, b, rep);
      ReplaceSkip(a + pat + b, pat, rep);
      Recons(a, rep, Replace(b, pat, rep));
    }
  }

  lemma EmptyFront(a: string, x: string)
    requires a == []
    ensures a + x == x
  {
  }

  /** Putting the first character back in front. */
  lemma Recons(a: string, x: string, y: string)
    requires a != []
    ensures [a[0]] + (a[1..] + x + y) == a + x + y
  {
    assert [a[0]] + a[1..] == a;
  }

  function Repeat(c: char, n: nat): (r: string)
    ensures |r| == n && forall i :: 0 <= i < n ==> r[i] == c
  {
    if n == 0 then [] else [c] + Repeat(c, n - 1)
  }

  function DigitChar(d: nat): char
    requires d < 10
  {
    ['0', '1', '2', '3', '4', '5', '6', '7', '8', '9'][d]
  }

  function DigitValue(c: char): nat {
    if '0' <= c <= '9' then (c as int - '0' as int) as nat else 0
  }

  lemma DigitRoundTrip(d: nat)
    requires d < 10
    ensures DigitValue(DigitChar(d)) == d
  {
  }

  /** str(n) for a non-negative integer: its decimal digits, without
      leading zeros. */
  function Decimal(n: nat): (r: string)
    ensures 1 <= |r|
    ensures forall i :: 0 <= i < |r| ==> '0' <= r[i] <= '9'
    ensures n > 0 ==> r[0] != '0'
  {
    if n < 10 then [DigitChar(n)] else Decimal(n / 10) + [DigitChar(n % 10)]
  }

  /** int(s) for a string of decimal digits. */
  function DecimalValue(s: string): nat {
    if s == [] then 0 else 10 * DecimalValue(s[..|s| - 1]) + DigitValue(s[|s| - 1])
  }

  /** Reading the digits of `Decimal(n)` gives `n` back. */
  lemma {:induction false} DecimalRoundTrip(n: nat)
    ensures DecimalValue(Decimal(n)) == n
  {
    if n >= 10 {
      DecimalRoundTrip(n / 10);
      var s := Decimal(n);
      assert s[..|s| - 1] == Decimal(n / 10);
      DigitRoundTrip(n % 10);
      assert n == 10 * (n / 10) + n % 10;
    }
  }

  /** A larger number never has fewer digits. */
  lemma {:induction false} DecimalLengthMonotone(a: nat, b: nat)
    requires a <= b
    ensures |Decimal(a)| <= |Decimal(b)|
  {
    if a >= 10 {
      DecimalLengthMonotone(a / 10, b / 10);
    }
  }

  /** format(s, ">w"): right-aligned in a field of at least `w` characters,
      never truncated. */
  function PadLeft(s: string, w: nat): (r: string)
    ensures |r| == if |s| < w then w else |s|
    ensures r[|r| - |s|..] == s && forall i :: 0 <= i < |r| - |s| ==> r[i] == ' '
  {
    if |s| < w then Repeat(' ', w - |s|) + s else s
  }
}
