/** Query normalisation: the `ingredients.lower().strip()` step that every
    query goes through before it is classified. Python's `lower` is modelled
    on ASCII letters; `strip` removes the characters Python's `str.isspace`
    accepts, from both ends. */
module Text {

  predicate IsUpper(c: char) { 'A' <= c <= 'Z' }

  predicate IsLowerLetter(c: char) { 'a' <= c <= 'z' }

  /** The characters Python's `str.strip()` removes when called without arguments. */
  predicate IsSpace(c: char)
  {
    || c == ' '
    || '\t' <= c <= '\r'
    || '\U{1C}' <= c <= '\U{1F}'
    || c == '\U{85}' || c == '\U{A0}' || c == '\U{1680}'
    || '\U{2000}' <= c <= '\U{200A}'
    || c == '\U{2028}' || c == '\U{2029}' || c == '\U{202F}' || c == '\U{205F}'
    || c == '\U{3000}'
  }

  predicate HasNoUpper(s: string) { forall i :: 0 <= i < |s| ==> !IsUpper(s[i]) }

  predicate AllSpace(s: string) { forall i :: 0 <= i < |s| ==> IsSpace(s[i]) }

  /** Neither end of `s` is whitespace. */
  predicate IsTrimmed(s: string) { s == [] || (!IsSpace(s[0]) && !IsSpace(s[|s| - 1])) }

  function LowerChar(c: char): char
  {
    if IsUpper(c) then (c as int - 'A' as int + 'a' as int) as char else c
  }

  /** `str.lower()` on ASCII letters. */
  function Lower(s: string): (r: string)
    ensures |r| == |s| && HasNoUpper(r)
    ensures forall i :: 0 <= i < |s| && !IsUpper(s[i]) ==> r[i] == s[i]
    ensures forall i :: 0 <= i < |s| && IsUpper(s[i]) ==>
      IsLowerLetter(r[i]) && r[i] as int - 'a' as int == s[i] as int - 'A' as int
  {
    seq(|s|, i requires 0 <= i < |s| => LowerChar(s[i]))
  }

  /** Drops leading whitespace. */
  function TrimStart(s: string): (r: string)
    ensures |r| <= |s| && r == s[|s| - |r|..]
    ensures AllSpace(s[..|s| - |r|])
    ensures r == [] || !IsSpace(r[0])
  {
    if |s| > 0 && IsSpace(s[0]) then
      var r := TrimStart(s[1..]);
      assert s[..|s| - |r|] == [s[0]] + s[1..][..|s| - 1 - |r|];
      AllSpaceAppend([s[0]], s[1..][..|s| - 1 - |r|]);
      r
    else
      s
  }

  /** Drops trailing whitespace. */
  function TrimEnd(s: string): (r: string)
    ensures |r| <= |s| && r == s[..|r|]
    ensures AllSpace(s[|r|..])
    ensures r == [] || !IsSpace(r[|r| - 1])
  {
    if |s| > 0 && IsSpace(s[|s| - 1]) then
      var r := TrimEnd(s[..|s| - 1]);
      assert s[|r|..] == s[..|s| - 1][|r|..] + [s[|s| - 1]];
      AllSpaceAppend(s[..|s| - 1][|r|..], [s[|s| - 1]]);
      r
    else
      s
  }

  /** `str.strip()`. */
  function Trim(s: string): (r: string)
    ensures IsTrimmed(r)
  {
    var t := TrimStart(s);
    var r := TrimEnd(t);
    assert r != [] ==> r[0] == t[0];
    r
  }

  /** The input of `strip` is `pre + r + post` with only whitespace in `pre`
      and `post`, where `r` is what `strip` returns; `i` is the length of `pre`. */
  lemma TrimSplit(s: string) returns (i: nat)
    ensures i + |Trim(s)| <= |s| && Trim(s) == s[i..i + |Trim(s)|]
    ensures AllSpace(s[..i]) && AllSpace(s[i + |Trim(s)|..])
  {
    var t := TrimStart(s);
    var r := TrimEnd(t);
    i := |s| - |t|;
    InnerSlice(s, t, r);
  }

  /** `r` is a prefix of `t`, itself a suffix of `s`: `r` sits inside `s`
      between the two dropped parts. */
  lemma InnerSlice(s: string, t: string, r: string)
    requires |t| <= |s| && t == s[|s| - |t|..] && AllSpace(s[..|s| - |t|])
    requires |r| <= |t| && r == t[..|r|] && AllSpace(t[|r|..])
    ensures r == s[|s| - |t|..|s| - |t| + |r|]
    ensures AllSpace(s[..|s| - |t|]) && AllSpace(s[|s| - |t| + |r|..])
  {
    var i := |s| - |t|;
    assert forall k :: 0 <= k < |r| ==> r[k] == s[i + k];
    assert t[|r|..] == s[i + |r|..];
  }

  /** `query.lower().strip()` (main.py line 29). */
  function Normalize(s: string): (r: string)
    ensures IsTrimmed(r) && HasNoUpper(r)
    ensures |r| <= |s|
  {
    var l := Lower(s);
    var r := Trim(l);
    NormalizeShape(l);
    r
  }

  lemma NormalizeShape(l: string)
    requires HasNoUpper(l)
    ensures HasNoUpper(Trim(l)) && |Trim(l)| <= |l|
  {
    var i := TrimSplit(l);
    NoUpperInSlice(l, i, i + |Trim(l)|);
  }

  lemma NoUpperInSlice(s: string, i: nat, j: nat)
    requires i <= j <= |s| && HasNoUpper(s)
    ensures HasNoUpper(s[i..j])
  {
    assert forall k :: 0 <= k < j - i ==> s[i..j][k] == s[i + k];
  }

  lemma {:induction false} TrimStartOfSpaces(w: string, t: string)
    requires AllSpace(w)
    requires t == [] || !IsSpace(t[0])
    ensures TrimStart(w + t) == t
    decreases |w|
  {
    if w != [] {
      assert (w + t)[1..] == w[1..] + t;
      TrimStartOfSpaces(w[1..], t);
    } else {
      assert w + t == t;
    }
  }

  lemma {:induction false} TrimEndOfSpaces(t: string, w: string)
    requires AllSpace(w)
    requires t == [] || !IsSpace(t[|t| - 1])
    ensures TrimEnd(t + w) == t
    decreases |w|
  {
    if w != [] {
      assert (t + w)[..|t + w| - 1] == t + w[..|w| - 1];
      TrimEndOfSpaces(t, w[..|w| - 1]);
    } else {
      assert t + w == t;
    }
  }

  /** Padding a trimmed string with whitespace on both sides and stripping
      it gives the string back: `strip` removes exactly the padding. */
  lemma TrimRemovesPadding(pre: string, t: string, post: string)
    requires AllSpace(pre) && AllSpace(post) && IsTrimmed(t)
    ensures Trim(pre + t + post) == t
  {
    if t == [] {
      assert pre + t + post == pre + post;
      TrimStartOfSpaces(pre + post, []);
      assert pre + post + [] == pre + post;
    } else {
      assert pre + t + post == pre + (t + post);
      TrimStartOfSpaces(pre, t + post);
    }
    TrimEndOfSpaces(t, post);
  }

  lemma LowerOfLower(s: string)
    requires HasNoUpper(s)
    ensures Lower(s) == s
  {
  }

  /** A query already in normal form is left alone, and only such a query:
      no leading or trailing whitespace and no upper-case letter. */
  lemma NormalizeFixedPoints(s: string)
    ensures Normalize(s) == s <==> IsTrimmed(s) && HasNoUpper(s)
  {
    if IsTrimmed(s) && HasNoUpper(s) {
      LowerOfLower(s);
      TrimRemovesPadding([], s, []);
      assert [] + s + [] == s;
    }
  }

  /** Normalising twice is normalising once. */
  lemma NormalizeIdempotent(s: string)
    ensures Normalize(Normalize(s)) == Normalize(s)
  {
    NormalizeFixedPoints(Normalize(s));
  }

  lemma LowerAppend(a: string, b: string)
    ensures Lower(a + b) == Lower(a) + Lower(b)
  {
    assert forall k :: 0 <= k < |a + b| ==> Lower(a + b)[k] == (Lower(a) + Lower(b))[k];
  }

  lemma LowerOfSpaces(w: string)
    requires AllSpace(w)
    ensures Lower(w) == w
  {
  }

  lemma AllSpaceAppend(a: string, b: string)
    requires AllSpace(a) && AllSpace(b)
    ensures AllSpace(a + b)
  {
  }

  lemma SplitAt(s: string, i: nat, j: nat)
    requires i <= j <= |s|
    ensures s == s[..i] + s[i..j] + s[j..]
  {
  }

  lemma Regroup(p: string, a: string, r: string, b: string, q: string)
    ensures p + (a + r + b) + q == (p + a) + r + (b + q)
  {
  }

  lemma LowerOfPadded(pre: string, t: string, post: string)
    requires AllSpace(pre) && AllSpace(post)
    ensures Lower(pre + t + post) == pre + Lower(t) + post
  {
    LowerAppend(pre + t, post);
    LowerAppend(pre, t);
    LowerOfSpaces(pre);
    LowerOfSpaces(post);
  }

  /** Surrounding whitespace and letter case never change the normal form. */
  lemma NormalizeIgnoresPaddingAndCase(pre: string, s: string, post: string, t: string)
    requires AllSpace(pre) && AllSpace(post)
    requires Lower(t) == Lower(s)
    ensures Normalize(pre + t + post) == Normalize(s)
  {
    var l := Lower(s);
    var r := Trim(l);
    var i := TrimSplit(l);
    var a, b := l[..i], l[i + |r|..];
    LowerOfPadded(pre, t, post);
    SplitAt(l, i, i + |r|);
    Regroup(pre, a, r, b, post);
    AllSpaceAppend(pre, a);
    AllSpaceAppend(b, post);
    TrimRemovesPadding(pre + a, r, b + post);
  }
}
