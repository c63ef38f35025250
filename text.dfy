/**
 The string operations of Python that the configuration parser relies on:
 `str.strip()` with no argument, `str.split(sep)` on a one-character
 separator, and the search for the first occurrence of a character that
 `str.split(sep, 1)` performs.
 */
module Text {

  /** Python 3's `str.isspace()`: the characters `str.strip()` removes. */
  predicate IsSpace(c: char)
  {
    || c == ' '
    || ('\t' <= c <= '\r')
    || ('\U{1C}' <= c <= '\U{1F}')
    || c == '\U{85}'
    || c == '\U{A0}'
    || c == '\U{1680}'
    || ('\U{2000}' <= c <= '\U{200A}')
    || c == '\U{2028}'
    || c == '\U{2029}'
    || c == '\U{202F}'
    || c == '\U{205F}'
    || c == '\U{3000}'
  }

  predicate AllSpace(s: string)
  {
    forall i :: 0 <= i < |s| ==> IsSpace(s[i])
  }

  /** Neither end of `s` is whitespace: `s` is its own strip. */
  predicate IsStripped(s: string)
  {
    s == [] || (!IsSpace(s[0]) && !IsSpace(s[|s| - 1]))
  }

  /** `s.lstrip()`: drops the longest all-whitespace prefix. */
  function TrimLeft(s: string): (r: string)
    ensures |r| <= |s|
    ensures r == [] || !IsSpace(r[0])
  {
    if s != [] && IsSpace(s[0]) then TrimLeft(s[1..]) else s
  }

  /** `s.rstrip()`: drops the longest all-whitespace suffix. */
  function TrimRight(s: string): (r: string)
    ensures |r| <= |s|
    ensures r == [] || (r[0] == s[0] && !IsSpace(r[|r| - 1]))
  {
    if s != [] && IsSpace(s[|s| - 1]) then TrimRight(s[..|s| - 1]) else s
  }

  /** `s.strip()`. */
  function Strip(s: string): (r: string)
    ensures IsStripped(r)
  {
    TrimRight(TrimLeft(s))
  }

  /** What TrimLeft drops is whitespace, and what it keeps is the rest of `s`. */
  lemma {:induction false} TrimLeftDropsSpace(s: string) returns (pre: string)
    ensures AllSpace(pre) && s == pre + TrimLeft(s)
  {
    if s != [] && IsSpace(s[0]) {
      var pre' := TrimLeftDropsSpace(s[1..]);
      pre := [s[0]] + pre';
      assert s == [s[0]] + s[1..];
    } else {
      pre := [];
    }
  }

  /** What TrimRight drops is whitespace, and what it keeps is the start of `s`. */
  lemma {:induction false} TrimRightDropsSpace(s: string) returns (post: string)
    ensures AllSpace(post) && s == TrimRight(s) + post
  {
    if s != [] && IsSpace(s[|s| - 1]) {
      var post' := TrimRightDropsSpace(s[..|s| - 1]);
      post := post' + [s[|s| - 1]];
      assert s == s[..|s| - 1] + [s[|s| - 1]];
    } else {
      post := [];
    }
  }

  /** Strip keeps a contiguous piece of its input and drops only whitespace around it. */
  lemma StripIsInfix(s: string) returns (pre: string, post: string)
    ensures AllSpace(pre) && AllSpace(post) && s == pre + Strip(s) + post
  {
    pre := TrimLeftDropsSpace(s);
    post := TrimRightDropsSpace(TrimLeft(s));
  }

  lemma StripKeepsOnlyInputChars(s: string, c: char)
    requires c !in s
    ensures c !in Strip(s)
  {
    var pre, post := StripIsInfix(s);
    assert forall i :: 0 <= i < |Strip(s)| ==> Strip(s)[i] == s[|pre| + i];
  }

  lemma {:induction false} TrimLeftSkips(pre: string, t: string)
    requires AllSpace(pre)
    requires t == [] || !IsSpace(t[0])
    ensures TrimLeft(pre + t) == t
  {
    if pre == [] {
      assert pre + t == t;
    } else {
      assert (pre + t)[1..] == pre[1..] + t;
      TrimLeftSkips(pre[1..], t);
    }
  }

  lemma {:induction false} TrimRightSkips(t: string, post: string)
    requires AllSpace(post)
    requires t == [] || !IsSpace(t[|t| - 1])
    ensures TrimRight(t + post) == t
  {
    if post == [] {
      assert t + post == t;
    } else {
      assert (t + post)[..|t + post| - 1] == t + post[..|post| - 1];
      TrimRightSkips(t, post[..|post| - 1]);
    }
  }

  /**
   Strip is determined by what it promises: whatever is surrounded by
   whitespace alone, and has no whitespace at either end, is the strip.
   */
  lemma StripUnique(pre: string, s: string, post: string)
    requires AllSpace(pre) && AllSpace(post) && IsStripped(s)
    ensures Strip(pre + s + post) == s
  {
    if s == [] {
      assert pre + s + post == pre + post;
      TrimLeftSkips(pre + post, []);
      assert pre + post + [] == pre + post;
    } else {
      assert pre + s + post == pre + (s + post);
      TrimLeftSkips(pre, s + post);
      TrimRightSkips(s, post);
    }
  }

  lemma StripStripped(s: string)
    requires IsStripped(s)
    ensures Strip(s) == s
  {
    StripUnique([], s, []);
    assert [] + s + [] == s;
  }

  lemma StripIdempotent(s: string)
    ensures Strip(Strip(s)) == Strip(s)
  {
    StripUnique([], Strip(s), []);
    assert [] + Strip(s) + [] == Strip(s);
  }

  /**
   The index of the first `c` in `s`, or `|s|` when there is none: the
   position at which `str.split` cuts.
   */
  function Find(s: string, c: char): (i: nat)
    ensures i <= |s|
    ensures i < |s| <==> c in s
    ensures i < |s| ==> s[i] == c
    ensures c !in s[..i]
  {
    if s == [] then 0
    else if s[0] == c then 0
    else
      assert s[..1 + Find(s[1..], c)] == [s[0]] + s[1..][..Find(s[1..], c)];
      1 + Find(s[1..], c)
  }

  lemma {:induction false} FindFirst(a: string, c: char, b: string)
    requires c !in a
    ensures Find(a + [c] + b, c) == |a|
  {
    if a != [] {
      assert (a + [c] + b)[1..] == a[1..] + [c] + b;
      FindFirst(a[1..], c, b);
    }
  }

  /** `s.split(sep)`: the pieces of `s` between occurrences of `sep`. */
  function Split(s: string, sep: char): (parts: seq<string>)
    ensures |parts| > 0
    ensures forall p :: p in parts ==> sep !in p
    decreases |s|
  {
    var i := Find(s, sep);
    if i == |s| then [s] else [s[..i]] + Split(s[i + 1..], sep)
  }

  /** `sep.join(parts)`, the inverse of Split. */
  function Join(parts: seq<string>, sep: char): string
    requires |parts| > 0
  {
    if |parts| == 1 then parts[0] else parts[0] + [sep] + Join(parts[1..], sep)
  }

  lemma {:induction false} JoinSplit(s: string, sep: char)
    ensures Join(Split(s, sep), sep) == s
    decreases |s|
  {
    var i := Find(s, sep);
    if i < |s| {
      var rest := Split(s[i + 1..], sep);
      assert Split(s, sep) == [s[..i]] + rest;
      assert ([s[..i]] + rest)[1..] == rest;
      JoinSplit(s[i + 1..], sep);
      assert Join(Split(s, sep), sep) == s[..i] + [sep] + s[i + 1..];
      assert s == s[..i] + [sep] + s[i + 1..];
    }
  }

  lemma {:induction false} SplitJoin(parts: seq<string>, sep: char)
    requires |parts| > 0
    requires forall p :: p in parts ==> sep !in p
    ensures Split(Join(parts, sep), sep) == parts
  {
    if |parts| == 1 {
      assert sep !in parts[0];
    } else {
      var rest := Join(parts[1..], sep);
      var s := parts[0] + [sep] + rest;
      assert sep !in parts[0];
      FindFirst(parts[0], sep, rest);
      assert s[..|parts[0]|] == parts[0];
      assert s[|parts[0]| + 1..] == rest;
      SplitJoin(parts[1..], sep);
      assert parts == [parts[0]] + parts[1..];
    }
  }
}
