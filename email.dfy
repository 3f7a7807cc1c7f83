/**
 * The email check of validateField: the regular expression
 * /^[^\s@]+@[^\s@]+\.[^\s@]+$/ tested against the trimmed value.
 *
 * The pattern is kept as data (a sequence of terms) and `Matches` gives it
 * the meaning RegExp.prototype.test gives an anchored pattern: some way of
 * splitting the whole string among the terms exists (backtracking finds it
 * whenever it exists).  `EmailShaped` says the same thing without the
 * pattern, and `MatchesIffShaped` proves the two agree.
 */
module Email {
  import opened Text

  /** A single-character atom: a literal character, or the class `[^\s<c>]`. */
  datatype Atom = Literal(c: char) | NotWsNor(c: char)

  /** An atom taken exactly once, or with the `+` quantifier. */
  datatype Term = Once(a: Atom) | OneOrMore(a: Atom)

  predicate Accepts(a: Atom, x: char)
  {
    match a
    case Literal(c) => x == c
    case NotWsNor(c) => !IsWs(x) && x != c
  }

  predicate AllAccepted(a: Atom, s: string)
  {
    forall k :: 0 <= k < |s| ==> Accepts(a, s[k])
  }

  /** Does the anchored pattern `^p$` match all of `s`? */
  function Matches(p: seq<Term>, s: string): (r: bool)
    ensures r ==> |p| <= |s|
    decreases |s|, |p|
  {
    if p == [] then s == []
    else if s == [] || !Accepts(p[0].a, s[0]) then false
    else match p[0]
      case Once(_) => Matches(p[1..], s[1..])
      case OneOrMore(_) => Matches(p[1..], s[1..]) || Matches(p, s[1..])
  }

  /** `[^\s@]+`, the term every part of an address is made of. */
  const Word: Term := OneOrMore(NotWsNor('@'))

  /** `[^\s@]+\.[^\s@]+`, what follows the '@'. */
  const DomainPattern: seq<Term> := [Word, Once(Literal('.')), Word]

  /** /^[^\s@]+@[^\s@]+\.[^\s@]+$/ */
  const EmailRegex: seq<Term> := [Word, Once(Literal('@'))] + DomainPattern

  /** `emailRegex.test(value)` */
  function EmailTest(value: string): (r: bool)
    ensures r <==> EmailShaped(value)
  {
    MatchesIffShaped(value);
    Matches(EmailRegex, value)
  }

  /** The domain holds a '.' with at least one character on each side. */
  predicate HasInnerDot(d: string)
  {
    exists j :: 0 < j < |d| - 1 && d[j] == '.'
  }

  /** What the pattern accepts, said directly: no whitespace, exactly one
      '@', something before it, and a dot strictly inside what follows it. */
  predicate EmailShaped(s: string)
  {
    NoWs(s) && multiset(s)['@'] == 1 &&
    exists i :: 0 < i < |s| && s[i] == '@' && HasInnerDot(s[i + 1..])
  }

  // ---------------------------------------------------------------------
  // Matching a `+` term

  predicate PlusSplitAt(a: Atom, rest: seq<Term>, s: string, k: int)
  {
    1 <= k <= |s| && AllAccepted(a, s[..k]) && Matches(rest, s[k..])
  }

  /** `a+` followed by `rest` matches `s` exactly when some non-empty prefix
      of `s` is all `a` and `rest` matches the remainder. */
  lemma {:induction false} PlusSplit(a: Atom, rest: seq<Term>, s: string)
    ensures Matches([OneOrMore(a)] + rest, s) <==> exists k :: PlusSplitAt(a, rest, s, k)
    decreases |s|
  {
    var p := [OneOrMore(a)] + rest;
    assert p[0] == OneOrMore(a) && p[1..] == rest;
    if s == [] {
      return;
    }
    if Matches(p, s) {
      if Matches(rest, s[1..]) {
        assert s[..1] == [s[0]];
        assert PlusSplitAt(a, rest, s, 1);
      } else {
        assert Matches(p, s[1..]);
        PlusSplit(a, rest, s[1..]);
        var k :| PlusSplitAt(a, rest, s[1..], k);
        assert s[1..][k..] == s[k + 1..];
        var pre, tailPre := s[..k + 1], s[1..][..k];
        forall m | 0 <= m < k + 1 ensures Accepts(a, pre[m]) {
          if m > 0 { assert pre[m] == tailPre[m - 1]; }
        }
        assert PlusSplitAt(a, rest, s, k + 1);
      }
    }
    if k :| PlusSplitAt(a, rest, s, k) {
      assert Accepts(a, s[..k][0]);
      if k == 1 {
        assert s[k..] == s[1..];
      } else {
        assert s[1..][k - 1..] == s[k..];
        var pre, tailPre := s[..k], s[1..][..k - 1];
        assert forall m :: 0 <= m < k - 1 ==> tailPre[m] == pre[m + 1];
        assert PlusSplitAt(a, rest, s[1..], k - 1);
        PlusSplit(a, rest, s[1..]);
      }
    }
  }

  // ---------------------------------------------------------------------
  // The email pattern, split into its five pieces

  predicate Plain(x: char)
  {
    !IsWs(x) && x != '@'
  }

  predicate AllPlain(s: string)
  {
    forall k :: 0 <= k < |s| ==> Plain(s[k])
  }

  /** `s` is local part `s[..i]`, '@', host `s[i+1..j]`, '.', and `s[j+1..]`,
      every part non-empty and free of whitespace and '@'. */
  predicate SplitsAt(s: string, i: int, j: int)
  {
    0 < i && i + 1 < j && j + 1 < |s| && s[i] == '@' && s[j] == '.' &&
    forall k :: 0 <= k < |s| && k != i && k != j ==> Plain(s[k])
  }

  lemma PlainIsAccepted(s: string)
    ensures AllPlain(s) <==> AllAccepted(NotWsNor('@'), s)
  {
  }

  /** A term taken once, followed by `rest`: the first character is that
      atom and `rest` matches the remainder. */
  lemma OnceStep(a: Atom, rest: seq<Term>, x: string)
    ensures Matches([Once(a)] + rest, x) <==> x != [] && Accepts(a, x[0]) && Matches(rest, x[1..])
  {
    var p := [Once(a)] + rest;
    assert p[0] == Once(a) && p[1..] == rest;
  }

  /** `^[^\s@]+$` matches exactly the non-empty plain strings. */
  lemma {:induction false} WordMatch(x: string)
    ensures Matches([Word], x) <==> x != [] && AllPlain(x)
  {
    assert [Word] == [Word] + [];
    PlusSplit(NotWsNor('@'), [], x);
    PlainIsAccepted(x);
    if x != [] && AllPlain(x) {
      assert x[|x|..] == [];
      assert PlusSplitAt(NotWsNor('@'), [], x, |x|);
    }
    if k :| PlusSplitAt(NotWsNor('@'), [], x, k) {
      assert x[k..] == [];
      assert x[..k] == x;
    }
  }

  /** The domain pattern matches `d` exactly when `d` splits at some inner
      '.' into two non-empty plain parts. */
  lemma {:induction false} DomainMatch(d: string)
    ensures Matches(DomainPattern, d) <==>
            exists j :: 0 < j < |d| - 1 && AllPlain(d[..j]) && d[j] == '.' && AllPlain(d[j + 1..])
  {
    var tail := [Once(Literal('.')), Word];
    assert DomainPattern == [Word] + tail;
    assert tail == [Once(Literal('.'))] + [Word];
    PlusSplit(NotWsNor('@'), tail, d);
    forall k | 1 <= k <= |d|
      ensures PlusSplitAt(NotWsNor('@'), tail, d, k) <==>
              (k < |d| - 1 && AllPlain(d[..k]) && d[k] == '.' && AllPlain(d[k + 1..]))
    {
      var r := d[k..];
      PlainIsAccepted(d[..k]);
      OnceStep(Literal('.'), [Word], r);
      if r != [] {
        assert r[0] == d[k] && r[1..] == d[k + 1..];
        WordMatch(d[k + 1..]);
      }
    }
  }

  /** A match of the whole pattern splits the string into its five pieces. */
  lemma {:induction false} MatchSplits(s: string)
    requires Matches(EmailRegex, s)
    ensures exists i, j :: SplitsAt(s, i, j)
  {
    var tail := [Once(Literal('@'))] + DomainPattern;
    assert EmailRegex == [Word] + tail;
    PlusSplit(NotWsNor('@'), tail, s);
    var i :| PlusSplitAt(NotWsNor('@'), tail, s, i);
    var local, d := s[..i], s[i + 1..];
    PlainIsAccepted(local);
    OnceStep(Literal('@'), DomainPattern, s[i..]);
    assert s[i..][0] == s[i] && s[i..][1..] == d;
    DomainMatch(d);
    var j' :| 0 < j' < |d| - 1 && AllPlain(d[..j']) && d[j'] == '.' && AllPlain(d[j' + 1..]);
    var j := i + 1 + j';
    var host, top := d[..j'], d[j' + 1..];
    forall k | 0 <= k < |s| && k != i && k != j ensures Plain(s[k]) {
      if k < i { assert s[k] == local[k]; }
      else if k < j { assert s[k] == host[k - i - 1]; }
      else { assert s[k] == top[k - j - 1]; }
    }
    assert SplitsAt(s, i, j);
  }

  /** A string made of the five pieces matches the whole pattern. */
  lemma {:induction false} SplitMatches(s: string, i: int, j: int)
    requires SplitsAt(s, i, j)
    ensures Matches(EmailRegex, s)
  {
    var tail := [Once(Literal('@'))] + DomainPattern;
    assert EmailRegex == [Word] + tail;
    var local, d := s[..i], s[i + 1..];
    var j' := j - i - 1;
    var host, top := d[..j'], d[j' + 1..];
    assert AllPlain(local) by {
      forall k | 0 <= k < i ensures Plain(local[k]) { assert local[k] == s[k]; }
    }
    assert AllPlain(host) by {
      forall k | 0 <= k < j' ensures Plain(host[k]) { assert host[k] == s[i + 1 + k]; }
    }
    assert AllPlain(top) by {
      forall k | 0 <= k < |top| ensures Plain(top[k]) { assert top[k] == s[j + 1 + k]; }
    }
    assert d[j'] == s[j];
    DomainMatch(d);
    OnceStep(Literal('@'), DomainPattern, s[i..]);
    assert s[i..][0] == s[i] && s[i..][1..] == d;
    PlainIsAccepted(local);
    assert PlusSplitAt(NotWsNor('@'), tail, s, i);
    PlusSplit(NotWsNor('@'), tail, s);
  }

  lemma NoAtIfCountZero(s: string, k: int)
    requires multiset(s)['@'] == 0 && 0 <= k < |s|
    ensures s[k] != '@'
  {
    assert s[k] in multiset(s);
  }

  /** The only '@' of a split is the one at `i`. */
  lemma {:induction false} SplitIsShaped(s: string, i: int, j: int)
    requires SplitsAt(s, i, j)
    ensures EmailShaped(s)
  {
    var before, after := s[..i], s[i + 1..];
    assert s == before + [s[i]] + after;
    assert '@' !in before by {
      forall k | 0 <= k < |before| ensures before[k] != '@' { assert before[k] == s[k]; }
    }
    assert '@' !in after by {
      forall k | 0 <= k < |after| ensures after[k] != '@' { assert after[k] == s[i + 1 + k]; }
    }
    assert multiset(s) == multiset(before) + multiset{'@'} + multiset(after);
    assert NoWs(s);
    assert after[j - i - 1] == '.';
    assert HasInnerDot(after);
  }

  /** With exactly one '@' in `s`, at `i`, no other character is an '@'. */
  lemma OnlyAt(s: string, i: int, k: int)
    requires 0 <= i < |s| && s[i] == '@' && multiset(s)['@'] == 1
    requires 0 <= k < |s| && k != i
    ensures s[k] != '@'
  {
    var before, after := s[..i], s[i + 1..];
    assert s == before + [s[i]] + after;
    assert multiset(s) == multiset(before) + multiset{'@'} + multiset(after);
    if k < i {
      assert s[k] == before[k];
      NoAtIfCountZero(before, k);
    } else {
      assert s[k] == after[k - i - 1];
      NoAtIfCountZero(after, k - i - 1);
    }
  }

  lemma {:induction false} ShapedSplits(s: string)
    requires EmailShaped(s)
    ensures exists i, j :: SplitsAt(s, i, j)
  {
    var i :| 0 < i < |s| && s[i] == '@' && HasInnerDot(s[i + 1..]);
    var d := s[i + 1..];
    var j' :| 0 < j' < |d| - 1 && d[j'] == '.';
    var j := i + 1 + j';
    assert s[j] == '.';
    forall k | 0 <= k < |s| && k != i && k != j ensures Plain(s[k]) {
      OnlyAt(s, i, k);
    }
    assert SplitsAt(s, i, j);
  }

  /** The pattern accepts exactly the strings with no whitespace, exactly one
      '@', a non-empty local part, and a '.' strictly inside the domain. */
  lemma {:induction false} MatchesIffShaped(s: string)
    ensures Matches(EmailRegex, s) <==> EmailShaped(s)
  {
    if Matches(EmailRegex, s) {
      MatchSplits(s);
      var i, j :| SplitsAt(s, i, j);
      SplitIsShaped(s, i, j);
    }
    if EmailShaped(s) {
      ShapedSplits(s);
      var i, j :| SplitsAt(s, i, j);
      SplitMatches(s, i, j);
    }
  }
}
