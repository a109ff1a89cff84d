/**
 * Python string primitives the watcher relies on: the whitespace class that
 * `str.strip()` removes and that the regular-expression class `\S` excludes,
 * the maximal run of non-whitespace characters that a greedy `\S+` captures,
 * and `str.strip()` itself.
 */
module Text {

  /** Python's `str.isspace()` on one character (the same set `\s` matches in a str pattern). */
  predicate IsSpace(c: char)
  {
    || c == ' ' || c == '\t' || c == '\n' || c == '\r'
    || c == '\U{000B}' || c == '\U{000C}'
    || ('\U{001C}' <= c <= '\U{001F}')
    || c == '\U{0085}' || c == '\U{00A0}' || c == '\U{1680}'
    || ('\U{2000}' <= c <= '\U{200A}')
    || c == '\U{2028}' || c == '\U{2029}' || c == '\U{202F}' || c == '\U{205F}'
    || c == '\U{3000}'
  }

  predicate AllSpace(s: string)
  {
    forall k :: 0 <= k < |s| ==> IsSpace(s[k])
  }

  /** A string a `\S+` group can capture: non-empty and free of whitespace. */
  predicate IsToken(s: string)
  {
    |s| > 0 && forall k :: 0 <= k < |s| ==> !IsSpace(s[k])
  }

  /** Length of the longest whitespace-free prefix of `s`: what a greedy `\S*` consumes. */
  function TokenLen(s: string): (n: nat)
    ensures n <= |s|
    ensures forall k :: 0 <= k < n ==> !IsSpace(s[k])
    ensures n < |s| ==> IsSpace(s[n])
  {
    if s == [] || IsSpace(s[0]) then 0 else 1 + TokenLen(s[1..])
  }

  /** `s.lstrip()`: `s` without its leading whitespace. */
  function TrimLeft(s: string): (r: string)
    ensures |r| <= |s|
    ensures r == [] || (!IsSpace(r[0]) && r[|r| - 1] == s[|s| - 1])
  {
    if s != [] && IsSpace(s[0]) then TrimLeft(s[1..]) else s
  }

  /** `s.rstrip()`: `s` without its trailing whitespace. */
  function TrimRight(s: string): (r: string)
    ensures |r| <= |s|
    ensures r == [] || (!IsSpace(r[|r| - 1]) && r[0] == s[0])
  {
    if s != [] && IsSpace(s[|s| - 1]) then TrimRight(s[..|s| - 1]) else s
  }

  /** Python's `s.strip()` with no argument: the result neither starts nor ends with whitespace. */
  function Strip(s: string): (r: string)
    ensures |r| <= |s|
    ensures r == [] || (!IsSpace(r[0]) && !IsSpace(r[|r| - 1]))
  {
    TrimRight(TrimLeft(s))
  }

  /** `lstrip()` removes a whitespace prefix and stops at a non-whitespace character. */
  lemma {:induction false} TrimLeftShape(s: string)
    ensures var r := TrimLeft(s); var k := |s| - |r|;
      && r == s[k..]
      && (forall j :: 0 <= j < k ==> IsSpace(s[j]))
      && (r == [] || !IsSpace(r[0]))
  {
    if s != [] && IsSpace(s[0]) {
      TrimLeftShape(s[1..]);
    }
  }

  /** `rstrip()` removes a whitespace suffix and stops at a non-whitespace character. */
  lemma {:induction false} TrimRightShape(s: string)
    ensures var r := TrimRight(s);
      && r == s[..|r|]
      && (forall j :: |r| <= j < |s| ==> IsSpace(s[j]))
      && (r == [] || !IsSpace(r[|r| - 1]))
  {
    if s != [] && IsSpace(s[|s| - 1]) {
      TrimRightShape(s[..|s| - 1]);
    }
  }

  /**
   * What `strip()` keeps is a slice of `s` that neither starts nor ends with
   * whitespace, and everything it removes on either side is whitespace.
   */
  lemma StripShape(s: string)
    ensures var r := Strip(s); var k := |s| - |TrimLeft(s)|;
      && k + |r| <= |s| && r == s[k..k + |r|]
      && (forall j :: 0 <= j < k ==> IsSpace(s[j]))
      && (forall j :: k + |r| <= j < |s| ==> IsSpace(s[j]))
      && (r == [] || (!IsSpace(r[0]) && !IsSpace(r[|r| - 1])))
  {
    var a := TrimLeft(s);
    TrimLeftShape(s);
    TrimRightShape(a);
    var k := |s| - |a|;
    var r := TrimRight(a);
    assert r == s[k..k + |r|] by {
      assert r == s[k..][..|r|];
    }
    forall j | k + |r| <= j < |s|
      ensures IsSpace(s[j])
    {
      assert s[j] == a[j - k];
    }
  }

  /** Leading whitespace in front of text that starts with a non-whitespace character is exactly what `lstrip()` removes. */
  lemma {:induction false} TrimLeftOf(w: string, rest: string)
    requires AllSpace(w) && (rest == [] || !IsSpace(rest[0]))
    ensures TrimLeft(w + rest) == rest
  {
    if w == [] {
      assert w + rest == rest;
    } else {
      assert (w + rest)[0] == w[0] && (w + rest)[1..] == w[1..] + rest;
      TrimLeftOf(w[1..], rest);
    }
  }

  /** Trailing whitespace after text that ends with a non-whitespace character is exactly what `rstrip()` removes. */
  lemma {:induction false} TrimRightOf(rest: string, w: string)
    requires AllSpace(w) && (rest == [] || !IsSpace(rest[|rest| - 1]))
    ensures TrimRight(rest + w) == rest
  {
    if w == [] {
      assert rest + w == rest;
    } else {
      var s := rest + w;
      assert s[|s| - 1] == w[|w| - 1] && s[..|s| - 1] == rest + w[..|w| - 1];
      TrimRightOf(rest, w[..|w| - 1]);
    }
  }

  /**
   * `strip()` is determined by its result: whatever whitespace surrounds a
   * string that neither starts nor ends with whitespace is exactly what is removed.
   */
  lemma StripOf(w1: string, core: string, w2: string)
    requires AllSpace(w1) && AllSpace(w2)
    requires core == [] || (!IsSpace(core[0]) && !IsSpace(core[|core| - 1]))
    ensures Strip(w1 + core + w2) == core
  {
    assert w1 + core + w2 == w1 + (core + w2);
    if core == [] {
      assert core + w2 == w2 + [];
      TrimLeftOf(w1 + w2, []);
      assert w1 + w2 + [] == w1 + (core + w2);
    } else {
      assert (core + w2)[0] == core[0];
      TrimLeftOf(w1, core + w2);
      TrimRightOf(core, w2);
    }
  }

  /** Stripping twice is stripping once. */
  lemma StripIdempotent(s: string)
    ensures Strip(Strip(s)) == Strip(s)
  {
    StripShape(s);
  }

  /** A token followed by anything: the greedy run covers the whole token and continues into the rest. */
  lemma TokenLenAppend(t: string, rest: string)
    requires forall k :: 0 <= k < |t| ==> !IsSpace(t[k])
    ensures TokenLen(t + rest) == |t| + TokenLen(rest)
  {
    var s := t + rest;
    assert forall k :: 0 <= k < |t| ==> s[k] == t[k];
    assert forall k :: |t| <= k < |s| ==> s[k] == rest[k - |t|];
    var m := TokenLen(rest);
    assert m < |rest| ==> IsSpace(s[|t| + m]);
    assert forall k :: 0 <= k < |t| + m ==> !IsSpace(s[k]);
  }
}
