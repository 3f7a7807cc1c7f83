/**
 * Whitespace and String.prototype.trim as the page's scripts use them.
 *
 * ECMAScript uses one whitespace set for both `trim` and the regex class
 * `\s`: the WhiteSpace code points (TAB, VT, FF, SPACE, NBSP, ZWNBSP and the
 * Unicode "Zs" category) together with the LineTerminator code points (LF, CR,
 * LINE SEPARATOR, PARAGRAPH SEPARATOR).  `IsWs` is that set, so the trimming
 * of field values and the email pattern agree on what whitespace is.
 */
module Text {

  predicate IsWs(c: char)
  {
    // TAB, LF, VT, FF, CR
    ('\t' <= c <= '\r') ||
    // SPACE, NO-BREAK SPACE, OGHAM SPACE MARK
    c == ' ' || c == '\U{00A0}' || c == '\U{1680}' ||
    // EN QUAD .. HAIR SPACE
    ('\U{2000}' <= c <= '\U{200A}') ||
    // LINE SEPARATOR, PARAGRAPH SEPARATOR, NARROW NO-BREAK SPACE
    c == '\U{2028}' || c == '\U{2029}' || c == '\U{202F}' ||
    // MEDIUM MATHEMATICAL SPACE, IDEOGRAPHIC SPACE, ZERO WIDTH NO-BREAK SPACE
    c == '\U{205F}' || c == '\U{3000}' || c == '\U{FEFF}'
  }

  predicate AllWs(s: string)
  {
    forall k :: 0 <= k < |s| ==> IsWs(s[k])
  }

  predicate NoWs(s: string)
  {
    forall k :: 0 <= k < |s| ==> !IsWs(s[k])
  }

  /** The number of whitespace characters `s` starts with. */
  function LeadingWs(s: string): (n: nat)
    ensures n <= |s|
    ensures forall k :: 0 <= k < n ==> IsWs(s[k])
    ensures n == |s| || !IsWs(s[n])
  {
    if s != [] && IsWs(s[0]) then 1 + LeadingWs(s[1..]) else 0
  }

  /** The number of whitespace characters `s` ends with. */
  function TrailingWs(s: string): (n: nat)
    ensures n <= |s|
    ensures forall k :: |s| - n <= k < |s| ==> IsWs(s[k])
    ensures n == |s| || !IsWs(s[|s| - n - 1])
  {
    if s != [] && IsWs(s[|s| - 1]) then 1 + TrailingWs(s[..|s| - 1]) else 0
  }

  /** Drops leading whitespace: the result is the suffix of `s` that starts
      at its first non-whitespace character. */
  function TrimStart(s: string): (r: string)
    ensures |r| <= |s| && r == s[|s| - |r|..]
    ensures forall k :: 0 <= k < |s| - |r| ==> IsWs(s[k])
    ensures r == [] || !IsWs(r[0])
  {
    s[LeadingWs(s)..]
  }

  /** Drops trailing whitespace: the result is the prefix of `s` that ends
      at its last non-whitespace character. */
  function TrimEnd(s: string): (r: string)
    ensures |r| <= |s| && r == s[..|r|]
    ensures forall k :: |r| <= k < |s| ==> IsWs(s[k])
    ensures r == [] || !IsWs(r[|r| - 1])
  {
    s[..|s| - TrailingWs(s)]
  }

  /** String.prototype.trim: the middle of `s` left after cutting the
      whitespace, and only the whitespace, from both ends; what is left
      starts and ends with a non-whitespace character. */
  function Trim(s: string): (r: string)
    ensures var a := LeadingWs(s);
            a + |r| <= |s| && r == s[a..a + |r|] &&
            (forall k :: 0 <= k < a ==> IsWs(s[k])) &&
            (forall k :: a + |r| <= k < |s| ==> IsWs(s[k]))
    ensures r == [] || (!IsWs(r[0]) && !IsWs(r[|r| - 1]))
  {
    var t := TrimStart(s);
    TrimEndOfSuffix(s, LeadingWs(s), t);
    TrimEnd(t)
  }

  /** Trimming the end of the suffix `t == s[a..]` cuts only trailing
      whitespace of `s`. */
  lemma TrimEndOfSuffix(s: string, a: nat, t: string)
    requires a <= |s| && t == s[a..]
    ensures a + |TrimEnd(t)| <= |s| && TrimEnd(t) == s[a..a + |TrimEnd(t)|]
    ensures forall k :: a + |TrimEnd(t)| <= k < |s| ==> IsWs(s[k])
  {
    var r := TrimEnd(t);
    forall k | a + |r| <= k < |s| ensures IsWs(s[k]) {
      assert s[k] == t[k - a];
    }
  }

  /** `!value.trim()` in the source: the trimmed value is the empty string. */
  predicate Blank(s: string)
  {
    Trim(s) == []
  }

  /** A value is blank exactly when it consists of whitespace only. */
  lemma BlankIffAllWs(s: string)
    ensures Blank(s) <==> AllWs(s)
  {
    var t := TrimStart(s);
    if Blank(s) {
      assert t == [];
    }
    if AllWs(s) {
      assert t == [];
    }
  }

  /** Trimming twice is trimming once. */
  lemma TrimIdempotent(s: string)
    ensures Trim(Trim(s)) == Trim(s)
  {
    var r := Trim(s);
    if r != [] {
      assert TrimStart(r) == r;
      assert TrimEnd(r) == r;
    }
  }

  /** The contract of `Trim` pins its result down: any slice of `x` with
      only whitespace around it, that is empty or starts and ends with
      non-whitespace, is `Trim(x)`. */
  lemma TrimUnique(x: string, a: nat, r: string)
    requires a + |r| <= |x| && r == x[a..a + |r|]
    requires forall k :: 0 <= k < a ==> IsWs(x[k])
    requires forall k :: a + |r| <= k < |x| ==> IsWs(x[k])
    requires r == [] || (!IsWs(r[0]) && !IsWs(r[|r| - 1]))
    ensures r == Trim(x)
  {
    var t, b := Trim(x), LeadingWs(x);
    if r == [] {
      assert t == [];
    } else {
      assert x[a] == r[0];
      assert x[a + |r| - 1] == r[|r| - 1];
      assert t != [];
      assert x[b] == t[0];
      assert x[b + |t| - 1] == t[|t| - 1];
      assert a == b;
      assert |r| == |t|;
    }
  }

  lemma TrimIgnoresLeading(pre: string, s: string)
    requires AllWs(pre)
    ensures Trim(pre + s) == Trim(s)
  {
    var x, t, a := pre + s, Trim(s), LeadingWs(s);
    var b := |pre| + a;
    assert x[b..b + |t|] == s[a..a + |t|];
    forall k | 0 <= k < b ensures IsWs(x[k]) {
      if k < |pre| { assert x[k] == pre[k]; } else { assert x[k] == s[k - |pre|]; }
    }
    forall k | b + |t| <= k < |x| ensures IsWs(x[k]) {
      assert x[k] == s[k - |pre|];
    }
    TrimUnique(x, b, t);
  }

  lemma TrimIgnoresTrailing(s: string, post: string)
    requires AllWs(post)
    ensures Trim(s + post) == Trim(s)
  {
    var x, t, a := s + post, Trim(s), LeadingWs(s);
    assert x[a..a + |t|] == s[a..a + |t|];
    forall k | 0 <= k < a ensures IsWs(x[k]) {
      assert x[k] == s[k];
    }
    forall k | a + |t| <= k < |x| ensures IsWs(x[k]) {
      if k < |s| { assert x[k] == s[k]; } else { assert x[k] == post[k - |s|]; }
    }
    TrimUnique(x, a, t);
  }

  /** Whitespace added around a value does not change what `trim` returns. */
  lemma TrimIgnoresPadding(pre: string, s: string, post: string)
    requires AllWs(pre) && AllWs(post)
    ensures Trim(pre + s + post) == Trim(s)
  {
    assert pre + s + post == pre + (s + post);
    TrimIgnoresLeading(pre, s + post);
    TrimIgnoresTrailing(s, post);
  }
}
