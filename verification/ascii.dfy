/**
 ASCII text normalisation used by the closet query and the hex-colour parser:
 trimming of surrounding whitespace and newlines, and letter-case folding.
 Only the ASCII repertoire is modelled.
 */
module Ascii {

  /** The ASCII members of the whitespace-and-newlines character set:
      space, and tab, line feed, vertical tab, form feed and carriage return
      (the code points 9 to 13). */
  predicate IsWhitespace(c: char) {
    c == ' ' || '\t' <= c <= '\r'
  }

  predicate AllWhitespace(s: string) {
    forall i :: 0 <= i < |s| ==> IsWhitespace(s[i])
  }

  /** `t` is `s` with exactly the whitespace before `a` and after `a + |t|` removed,
      and neither end of `t` is whitespace. This is what trimming both ends means,
      stated without saying how to compute it. */
  ghost predicate IsTrimOf(s: string, t: string, a: nat) {
    && a + |t| <= |s|
    && t == s[a..a + |t|]
    && (forall i :: 0 <= i < a ==> IsWhitespace(s[i]))
    && (forall i :: a + |t| <= i < |s| ==> IsWhitespace(s[i]))
    && (|t| > 0 ==> !IsWhitespace(t[0]) && !IsWhitespace(t[|t| - 1]))
  }

  /** The number of whitespace characters `s` starts with. */
  function LeadingWhitespace(s: string): (k: nat)
    ensures k <= |s|
    ensures forall i :: 0 <= i < k ==> IsWhitespace(s[i])
    ensures k < |s| ==> !IsWhitespace(s[k])
  {
    if |s| > 0 && IsWhitespace(s[0]) then 1 + LeadingWhitespace(s[1..]) else 0
  }

  /** The length of `s` once its trailing whitespace is dropped. */
  function ContentEnd(s: string): (m: nat)
    ensures m <= |s|
    ensures forall i :: m <= i < |s| ==> IsWhitespace(s[i])
    ensures m > 0 ==> !IsWhitespace(s[m - 1])
  {
    if |s| > 0 && IsWhitespace(s[|s| - 1]) then ContentEnd(s[..|s| - 1]) else |s|
  }

  /** The leading whitespace ends exactly where the first other character is. */
  lemma LeadingWhitespaceAt(s: string, a: nat)
    requires a <= |s|
    requires forall i :: 0 <= i < a ==> IsWhitespace(s[i])
    requires a < |s| ==> !IsWhitespace(s[a])
    ensures LeadingWhitespace(s) == a
  {
  }

  /** The trailing whitespace starts right after the last other character. */
  lemma ContentEndAt(s: string, m: nat)
    requires m <= |s|
    requires forall i :: m <= i < |s| ==> IsWhitespace(s[i])
    requires m > 0 ==> !IsWhitespace(s[m - 1])
    ensures ContentEnd(s) == m
  {
  }

  /** Drops the leading whitespace. */
  function TrimLeft(s: string): string {
    s[LeadingWhitespace(s)..]
  }

  /** Drops the trailing whitespace. */
  function TrimRight(s: string): string {
    s[..ContentEnd(s)]
  }

  /** Trimming of whitespace and newlines at both ends. */
  function Trim(s: string): string {
    var k := LeadingWhitespace(s);
    if k == |s| then [] else s[k..ContentEnd(s)]
  }

  /** What `Trim` computes is the trim of its input. */
  lemma TrimIsTrimOf(s: string)
    ensures IsTrimOf(s, Trim(s), LeadingWhitespace(s))
  {
    var k, m, t := LeadingWhitespace(s), ContentEnd(s), Trim(s);
    if k < |s| {
      assert k < m;
      assert t == s[k..m];
      assert t[0] == s[k] && t[|t| - 1] == s[m - 1];
    } else {
      assert t == [] == s[k..k];
    }
  }

  function LowerChar(c: char): char {
    if 'A' <= c <= 'Z' then (c as int + 32) as char else c
  }

  function UpperChar(c: char): char {
    if 'a' <= c <= 'z' then (c as int - 32) as char else c
  }

  /** Lower-casing, character by character. */
  function Lower(s: string): string {
    seq(|s|, i requires 0 <= i < |s| => LowerChar(s[i]))
  }

  /** Upper-casing, character by character. */
  function Upper(s: string): string {
    seq(|s|, i requires 0 <= i < |s| => UpperChar(s[i]))
  }

  /** The trim of a string is unique: any candidate meeting the definition is `Trim(s)`. */
  lemma TrimUnique(s: string, t: string, a: nat)
    requires IsTrimOf(s, t, a)
    ensures Trim(s) == t
  {
    if |t| == 0 {
      assert forall i :: a <= i < |s| ==> IsWhitespace(s[i]);
      LeadingWhitespaceAt(s, |s|);
    } else {
      assert s[a] == t[0] && s[a + |t| - 1] == t[|t| - 1];
      LeadingWhitespaceAt(s, a);
      ContentEndAt(s, a + |t|);
    }
  }

  lemma TrimIdempotent(s: string)
    ensures Trim(Trim(s)) == Trim(s)
  {
    var t := Trim(s);
    TrimIsTrimOf(s);
    assert IsTrimOf(t, t, 0) by {
      assert t == t[0..|t|];
    }
    TrimUnique(t, t, 0);
  }

  /** Whitespace added in front joins the leading whitespace. */
  lemma LeadingWhitespaceAfter(w: string, x: string)
    requires AllWhitespace(w)
    ensures LeadingWhitespace(w + x) == |w| + LeadingWhitespace(x)
  {
    var wx := w + x;
    var k := LeadingWhitespace(x);
    forall i | 0 <= i < |w| + k ensures IsWhitespace(wx[i]) {
      if i >= |w| { assert wx[i] == x[i - |w|]; }
    }
    if k < |x| {
      assert wx[|w| + k] == x[k];
    }
    LeadingWhitespaceAt(wx, |w| + k);
  }

  /** Text in front of content moves the content's end by its length. */
  lemma ContentEndAfter(w: string, x: string)
    requires ContentEnd(x) > 0
    ensures ContentEnd(w + x) == |w| + ContentEnd(x)
  {
    var wx := w + x;
    var m, n := ContentEnd(x), |w|;
    forall i | n + m <= i < |wx| ensures IsWhitespace(wx[i]) {
      assert wx[i] == x[i - n];
    }
    assert wx[n + m - 1] == x[m - 1];
    ContentEndAt(wx, n + m);
  }

  /** Whitespace added in front is dropped with the rest of the leading whitespace. */
  lemma TrimLeftSkips(w: string, x: string)
    requires AllWhitespace(w)
    ensures TrimLeft(w + x) == TrimLeft(x)
  {
    LeadingWhitespaceAfter(w, x);
    assert (w + x)[|w| + LeadingWhitespace(x)..] == x[LeadingWhitespace(x)..];
  }

  /** Trimming the right end first and then the left end is trimming. */
  lemma TrimLeftOfTrimRight(s: string)
    ensures TrimLeft(TrimRight(s)) == Trim(s)
  {
    var k, m := LeadingWhitespace(s), ContentEnd(s);
    var r := s[..m];
    if k == |s| {
      ContentEndAt(s, 0);
    } else {
      assert k < m;
      assert r[k] == s[k];
      LeadingWhitespaceAt(r, k);
      assert r[k..] == s[k..m];
    }
  }

  lemma PrefixOfAppend<T>(w: seq<T>, x: seq<T>, j: nat)
    requires j <= |x|
    ensures (w + x)[..|w| + j] == w + x[..j]
  {
  }

  /** Text in front of content is kept by right trimming. */
  lemma TrimRightAfter(w: string, x: string)
    requires ContentEnd(x) > 0
    ensures TrimRight(w + x) == w + TrimRight(x)
  {
    ContentEndAfter(w, x);
    PrefixOfAppend(w, x, ContentEnd(x));
  }

  /** Whitespace added in front does not change the trim. */
  lemma TrimSkipsPrefix(w: string, x: string)
    requires AllWhitespace(w)
    ensures Trim(w + x) == Trim(x)
  {
    TrimLeftOfTrimRight(w + x);
    TrimLeftOfTrimRight(x);
    if ContentEnd(x) > 0 {
      TrimRightAfter(w, x);
      TrimLeftSkips(w, TrimRight(x));
    } else {
      LeadingWhitespaceAfter(w, x);
      ContentEndAt(x, 0);
    }
  }

  /** Whitespace added behind does not change the trim. */
  lemma TrimSkipsSuffix(x: string, w: string)
    requires AllWhitespace(w)
    ensures Trim(x + w) == Trim(x)
  {
    var xw := x + w;
    var k, m := LeadingWhitespace(x), ContentEnd(x);
    forall i | |x| <= i < |xw| ensures IsWhitespace(xw[i]) {
      assert xw[i] == w[i - |x|];
    }
    if k == |x| {
      LeadingWhitespaceAt(xw, |xw|);
    } else {
      assert k < m;
      assert xw[k] == x[k] && xw[m - 1] == x[m - 1];
      LeadingWhitespaceAt(xw, k);
      ContentEndAt(xw, m);
      assert xw[k..m] == x[k..m];
    }
  }

  /** Surrounding whitespace does not change the trim. */
  lemma TrimIgnoresPadding(pre: string, s: string, post: string)
    requires AllWhitespace(pre) && AllWhitespace(post)
    ensures Trim(pre + s + post) == Trim(s)
  {
    TrimSkipsSuffix(pre + s, post);
    TrimSkipsPrefix(pre, s);
  }

  /** Case mapping neither creates nor removes whitespace. */
  lemma CaseKeepsWhitespace(c: char)
    ensures IsWhitespace(LowerChar(c)) == IsWhitespace(c)
    ensures IsWhitespace(UpperChar(c)) == IsWhitespace(c)
  {
  }

  /** Strings with whitespace in the same places are trimmed at the same places. */
  lemma SameWhitespaceSameCuts(s: string, u: string)
    requires |u| == |s|
    requires forall i :: 0 <= i < |s| ==> IsWhitespace(u[i]) == IsWhitespace(s[i])
    ensures LeadingWhitespace(u) == LeadingWhitespace(s)
    ensures ContentEnd(u) == ContentEnd(s)
  {
    LeadingWhitespaceAt(u, LeadingWhitespace(s));
    ContentEndAt(u, ContentEnd(s));
  }

  lemma UpperKeepsCuts(s: string)
    ensures LeadingWhitespace(Upper(s)) == LeadingWhitespace(s)
    ensures ContentEnd(Upper(s)) == ContentEnd(s)
  {
    forall i | 0 <= i < |s| ensures IsWhitespace(Upper(s)[i]) == IsWhitespace(s[i]) {
      CaseKeepsWhitespace(s[i]);
    }
    SameWhitespaceSameCuts(s, Upper(s));
  }

  lemma LowerKeepsCuts(s: string)
    ensures LeadingWhitespace(Lower(s)) == LeadingWhitespace(s)
    ensures ContentEnd(Lower(s)) == ContentEnd(s)
  {
    forall i | 0 <= i < |s| ensures IsWhitespace(Lower(s)[i]) == IsWhitespace(s[i]) {
      CaseKeepsWhitespace(s[i]);
    }
    SameWhitespaceSameCuts(s, Lower(s));
  }

  lemma LowerSlice(s: string, i: nat, j: nat)
    requires i <= j <= |s|
    ensures Lower(s[i..j]) == Lower(s)[i..j]
  {
    var u, v := Lower(s[i..j]), Lower(s)[i..j];
    forall p | 0 <= p < |u| ensures u[p] == v[p] {
      assert s[i..j][p] == s[i + p];
    }
  }

  lemma UpperSlice(s: string, i: nat, j: nat)
    requires i <= j <= |s|
    ensures Upper(s[i..j]) == Upper(s)[i..j]
  {
    var u, v := Upper(s[i..j]), Upper(s)[i..j];
    forall p | 0 <= p < |u| ensures u[p] == v[p] {
      assert s[i..j][p] == s[i + p];
    }
  }

  lemma UpperSuffix(s: string, i: nat)
    requires i <= |s|
    ensures Upper(s[i..]) == Upper(s)[i..]
  {
    var u, v := Upper(s[i..]), Upper(s)[i..];
    forall p | 0 <= p < |u| ensures u[p] == v[p] {
      assert s[i..][p] == s[i + p];
    }
  }

  lemma LowerCommutesWithTrim(s: string)
    ensures Lower(Trim(s)) == Trim(Lower(s))
  {
    LowerKeepsCuts(s);
    var k, m := LeadingWhitespace(s), ContentEnd(s);
    if k < |s| {
      LowerSlice(s, k, m);
    }
  }

  lemma UpperCommutesWithTrim(s: string)
    ensures Upper(Trim(s)) == Trim(Upper(s))
  {
    UpperKeepsCuts(s);
    var k, m := LeadingWhitespace(s), ContentEnd(s);
    if k < |s| {
      UpperSlice(s, k, m);
    }
  }

  lemma UpperCommutesWithTrimLeft(s: string)
    ensures TrimLeft(Upper(s)) == Upper(TrimLeft(s))
  {
    UpperKeepsCuts(s);
    UpperSuffix(s, LeadingWhitespace(s));
  }

  /** A string that starts with a non-whitespace character loses only its
      trailing whitespace. */
  lemma TrimAfterNonWhitespace(c: char, s: string)
    requires !IsWhitespace(c)
    ensures Trim([c] + s) == [c] + TrimRight(s)
  {
    var cs := [c] + s;
    var m := ContentEnd(s);
    forall i | 1 + m <= i < |cs| ensures IsWhitespace(cs[i]) {
      assert cs[i] == s[i - 1];
    }
    if m > 0 {
      assert cs[m] == s[m - 1];
    }
    LeadingWhitespaceAt(cs, 0);
    ContentEndAt(cs, 1 + m);
    assert cs[0..1 + m] == [c] + s[..m];
  }

  lemma UpperAppend(x: string, y: string)
    ensures Upper(x + y) == Upper(x) + Upper(y)
  {
    var u, v := Upper(x + y), Upper(x) + Upper(y);
    forall i | 0 <= i < |u| ensures u[i] == v[i] {
      if i < |x| {
        assert (x + y)[i] == x[i];
      } else {
        assert (x + y)[i] == y[i - |x|];
      }
    }
  }

  /** Lower-casing forgets the case the input was written in. */
  lemma LowerForgetsCase(s: string)
    ensures Lower(Upper(s)) == Lower(s)
    ensures Lower(Lower(s)) == Lower(s)
  {
  }

  /** Upper-casing forgets the case the input was written in. */
  lemma UpperForgetsCase(s: string)
    ensures Upper(Lower(s)) == Upper(s)
    ensures Upper(Upper(s)) == Upper(s)
  {
  }
}
