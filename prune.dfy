/** The last in-process step of prune_content in spellcheck.py: after the
    HTML tree has been cleaned, every `https://` token still left in the
    serialised text is deleted with `re.sub(r"https://[\S]*", "", html)`. */
module Prune {
  import opened Text

  const Https: string := "https://"

  /** The index of the first whitespace character of `s` at or after `i`,
      or `|s|`: where the `[\S]*` part of a match starting before `i` stops. */
  function TokenEnd(s: string, i: nat): (j: nat)
    requires i <= |s|
    ensures i <= j <= |s|
    ensures j < |s| ==> IsSpace(s[j])
    ensures forall k :: i <= k < j ==> !IsSpace(s[k])
    decreases |s| - i
  {
    if i == |s| || IsSpace(s[i]) then i else TokenEnd(s, i + 1)
  }

  /** re.sub(r"https://[\S]*", "", s): scanning from the left, each match
      of `https://` followed by the longest run of non-whitespace
      characters is deleted, and scanning resumes right after it. */
  function StripUrls(s: string): string
    decreases |s|
  {
    if IsPrefix(Https, s) then StripUrls(s[TokenEnd(s, |Https|)..])
    else if s == [] then []
    else [s[0]] + StripUrls(s[1..])
  }

  /** `TokenEnd` is the one index past a whitespace-free run that is
      followed by whitespace or the end of the text. */
  lemma TokenEndAt(s: string, i: nat, j: nat)
    requires i <= j <= |s|
    requires forall k :: i <= k < j ==> !IsSpace(s[k])
    requires j == |s| || IsSpace(s[j])
    ensures TokenEnd(s, i) == j
  {
  }

  /** A token ends before the final whitespace of `a`, whatever follows. */
  lemma TokenEndBefore(a: string, b: string, i: nat)
    requires i < |a| && IsSpace(a[|a| - 1])
    ensures TokenEnd(a, i) < |a| && TokenEnd(a + b, i) == TokenEnd(a, i)
  {
    var j := TokenEnd(a, i);
    assert !(i <= |a| - 1 < j);
    TokenEndAt(a + b, i, j);
  }

  /** A whole `https://` token is deleted, and what follows it is kept:
      the deletion stops at the next whitespace character. */
  lemma StripUrlsToken(t: string, rest: string)
    requires forall k :: 0 <= k < |t| ==> !IsSpace(t[k])
    requires rest == [] || IsSpace(rest[0])
    ensures StripUrls(Https + t + rest) == StripUrls(rest)
  {
    var s := Https + t + rest;
    assert IsPrefix(Https, s);
    TokenEndAt(s, |Https|, |Https| + |t|);
    assert s[|Https| + |t|..] == rest;
  }

  /** A match of `https://` at the front of `a + b`, where `a` ends with
      whitespace, lies wholly inside `a`. */
  lemma UrlInFront(a: string, b: string)
    requires a != [] && IsSpace(a[|a| - 1]) && IsPrefix(Https, a + b)
    ensures |Https| < |a| && IsPrefix(Https, a)
  {
    assert |a| > |Https| by {
      assert forall k :: 0 <= k < |Https| ==> !IsSpace(Https[k]);
      assert (a + b)[|a| - 1] == a[|a| - 1];
    }
    assert a[..|Https|] == (a + b)[..|Https|];
  }

  /** Deleting a token at the front of `a` leaves a shorter text that
      still ends with `a`'s final whitespace, followed by `b`. */
  lemma UrlStep(a: string, b: string) returns (j: nat)
    requires |Https| < |a| && IsPrefix(Https, a) && IsSpace(a[|a| - 1])
    ensures 0 < j < |a| && IsSpace(a[j..][|a[j..]| - 1])
    ensures StripUrls(a) == StripUrls(a[j..])
    ensures StripUrls(a + b) == StripUrls(a[j..] + b)
  {
    TokenEndBefore(a, b, |Https|);
    j := TokenEnd(a, |Https|);
    assert IsPrefix(Https, a + b) by {
      assert (a + b)[..|Https|] == a[..|Https|];
    }
    assert (a + b)[j..] == a[j..] + b;
  }

  /** Without a match at the front, one character of `a` is kept. */
  lemma PlainStep(a: string, b: string)
    requires a != [] && !IsPrefix(Https, a + b)
    ensures StripUrls(a) == [a[0]] + StripUrls(a[1..])
    ensures StripUrls(a + b) == [a[0]] + StripUrls(a[1..] + b)
  {
    assert |Https| <= |a| ==> (a + b)[..|Https|] == a[..|Https|];
    assert (a + b)[1..] == a[1..] + b;
  }

  lemma TailEndsSpace(a: string)
    requires a != [] && IsSpace(a[|a| - 1])
    ensures a[1..] == [] || IsSpace(a[1..][|a[1..]| - 1])
  {
    assert a[1..] == [] || a[1..][|a[1..]| - 1] == a[|a| - 1];
  }

  lemma Regroup(x: string, y: string, z: string)
    ensures x + (y + z) == x + y + z
  {
  }

  /** One step of the deletion on `a + b` where `a` ends with whitespace:
      it keeps `k` and goes on at `j` inside `a`, as it does on `a` alone. */
  lemma ConcatStep(a: string, b: string) returns (j: nat, k: string)
    requires a != [] && IsSpace(a[|a| - 1])
    ensures 0 < j <= |a| && (a[j..] == [] || IsSpace(a[j..][|a[j..]| - 1]))
    ensures StripUrls(a) == k + StripUrls(a[j..])
    ensures StripUrls(a + b) == k + StripUrls(a[j..] + b)
  {
    if IsPrefix(Https, a + b) {
      UrlInFront(a, b);
      j := UrlStep(a, b);
      k := [];
    } else {
      PlainStep(a, b);
      TailEndsSpace(a);
      j, k := 1, [a[0]];
    }
  }

  /** The deletion works piece by piece: text that ends with whitespace
      (or is empty) is handled apart from what follows it. */
  lemma {:induction false} StripUrlsConcat(a: string, b: string)
    requires a == [] || IsSpace(a[|a| - 1])
    ensures StripUrls(a + b) == StripUrls(a) + StripUrls(b)
    decreases |a|
  {
    if a == [] {
      assert a + b == b;
    } else {
      var j, k := ConcatStep(a, b);
      StripUrlsConcat(a[j..], b);
      Regroup(k, StripUrls(a[j..]), StripUrls(b));
    }
  }

  /** Putting the first character back in front. */
  lemma PutBack(a: string, y: string)
    requires a != []
    ensures [a[0]] + (a[1..] + y) == a + y
  {
    assert [a[0]] + a[1..] == a;
  }

  /** Everything before the first `https://` is kept as it is, wherever
      that match starts (inside a word too). */
  lemma {:induction false} StripUrlsBefore(a: string, x: string)
    requires !Contains(a + Https[..|Https| - 1], Https)
    ensures StripUrls(a + Https + x) == a + StripUrls(Https + x)
    decreases |a|
  {
    if a == [] {
      EmptyFront(a, Https);
      EmptyFront(a, StripUrls(Https + x));
    } else {
      ReplaceSplitStep(a, Https, x);
      StripUrlsBefore(a[1..], x);
      assert (a + Https + x)[0] == a[0];
      PutBack(a, StripUrls(Https + x));
    }
  }

  /** The first `https://` match and the token after it are deleted; the
      text before it is kept, and the deletion goes on after the token. */
  lemma StripUrlsFirst(a: string, t: string, rest: string)
    requires !Contains(a + Https[..|Https| - 1], Https)
    requires forall k :: 0 <= k < |t| ==> !IsSpace(t[k])
    requires rest == [] || IsSpace(rest[0])
    ensures StripUrls(a + Https + t + rest) == a + StripUrls(rest)
  {
    StripUrlsBefore(a, t + rest);
    StripUrlsToken(t, rest);
    Regroup(Https, t, rest);
    Regroup(a + Https, t, rest);
  }

  /** Text that starts with whitespace keeps that first character. */
  lemma StripUrlsKeepsLeadingSpace(d: string)
    ensures d == [] ==> StripUrls(d) == []
    ensures d != [] && IsSpace(d[0]) ==> StripUrls(d) != [] && StripUrls(d)[0] == d[0]
  {
    if d != [] && IsSpace(d[0]) {
      assert !IsSpace('h') && !IsPrefix(Https, d);
    }
  }

  /** Whatever the deletion produces starts with the same whitespace-free
      text as its input: right after a deleted token there is only
      whitespace or the end of the string. */
  lemma {:induction false} StripUrlsKeepsWordPrefix(s: string, q: string)
    requires IsPrefix(q, StripUrls(s))
    requires forall i :: 0 <= i < |q| ==> !IsSpace(q[i])
    ensures IsPrefix(q, s)
    decreases |s|
  {
    if q != [] {
      if IsPrefix(Https, s) {
        // Right after the deleted token comes whitespace or nothing, so the
        // output cannot start with the non-empty, whitespace-free `q`.
        StripUrlsKeepsLeadingSpace(s[TokenEnd(s, |Https|)..]);
        assert false;
      } else {
        assert s != [];
        var rest := StripUrls(s[1..]);
        assert StripUrls(s) == [s[0]] + rest;
        assert q[0] == s[0] && rest[..|q| - 1] == q[1..];
        StripUrlsKeepsWordPrefix(s[1..], q[1..]);
        assert s[..|q|] == [s[0]] + s[1..][..|q| - 1];
      }
    }
  }

  /** No `https://` survives the deletion. */
  lemma {:induction false} StripUrlsRemovesAll(s: string)
    ensures !Contains(StripUrls(s), Https)
    decreases |s|
  {
    if IsPrefix(Https, s) {
      StripUrlsRemovesAll(s[TokenEnd(s, |Https|)..]);
    } else if s != [] {
      var rest := StripUrls(s[1..]);
      StripUrlsRemovesAll(s[1..]);
      if IsPrefix(Https, [s[0]] + rest) {
        StripUrlsKeepsWordPrefix(s[1..], Https[1..]);
        assert false;
      }
    }
  }

  /** A string without `https://` is returned unchanged. */
  lemma {:induction false} StripUrlsNoUrl(s: string)
    requires !Contains(s, Https)
    ensures StripUrls(s) == s
    decreases |s|
  {
    if s != [] {
      StripUrlsNoUrl(s[1..]);
      assert s == [s[0]] + s[1..];
    }
  }

  /** Deleting a second time changes nothing. */
  lemma StripUrlsIdempotent(s: string)
    ensures StripUrls(StripUrls(s)) == StripUrls(s)
  {
    StripUrlsRemovesAll(s);
    StripUrlsNoUrl(StripUrls(s));
  }

  /** The deletion never lengthens the text. */
  lemma {:induction false} StripUrlsShortens(s: string)
    ensures |StripUrls(s)| <= |s|
    decreases |s|
  {
    if IsPrefix(Https, s) {
      StripUrlsShortens(s[TokenEnd(s, |Https|)..]);
    } else if s != [] {
      StripUrlsShortens(s[1..]);
    }
  }
}
