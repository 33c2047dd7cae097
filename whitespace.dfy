/**
 * The ECMAScript notion of white space, shared by the `\s` class of regular
 * expressions and by `String.prototype.trim`, and the trimming operations
 * built on it.
 */
module Whitespace {

  /** WhiteSpace or LineTerminator code points: TAB, VT, FF, SP, NBSP, ZWNBSP,
      the Unicode space separators (category Zs), LF, CR, LS and PS. */
  predicate IsWs(c: char)
    ensures IsWs(c) ==> c != '`' && !('0' <= c <= '9') && !('a' <= c <= 'z') && !('A' <= c <= 'Z')
    ensures c == ' ' || c == '\t' || c == '\n' || c == '\r' ==> IsWs(c)
  {
    || c == '\t' || c == '\U{000B}' || c == '\U{000C}' || c == ' '
    || c == '\U{00A0}' || c == '\U{FEFF}'
    || c == '\U{1680}' || ('\U{2000}' <= c <= '\U{200A}')
    || c == '\U{202F}' || c == '\U{205F}' || c == '\U{3000}'
    || c == '\n' || c == '\r' || c == '\U{2028}' || c == '\U{2029}'
  }

  /** Every character of `s` is white space (true of the empty text). */
  ghost predicate AllWs(s: string)
  {
    forall i :: 0 <= i < |s| ==> IsWs(s[i])
  }

  /** `s` neither starts nor ends with white space. */
  predicate IsTrimmed(s: string)
  {
    s == [] || (!IsWs(s[0]) && !IsWs(s[|s| - 1]))
  }

  /** Drops the maximal white-space prefix; TrimStartParts states the rest
      of its contract. The same operation is what a greedy `\s*` consumes. */
  function TrimStart(s: string): (r: string)
    ensures |r| <= |s|
    ensures r == [] || !IsWs(r[0])
  {
    if s != [] && IsWs(s[0]) then TrimStart(s[1..]) else s
  }

  /** Drops the maximal white-space suffix; TrimEndParts states the rest of
      its contract. */
  function TrimEnd(s: string): (r: string)
    ensures |r| <= |s|
    ensures r == [] || !IsWs(r[|r| - 1])
  {
    if s != [] && IsWs(s[|s| - 1]) then TrimEnd(s[..|s| - 1]) else s
  }

  /** What TrimStart removes is white space, and what it keeps is the rest
      of `s`. */
  lemma {:induction false} TrimStartParts(s: string)
    ensures var k := |s| - |TrimStart(s)|;
      TrimStart(s) == s[k..] && AllWs(s[..k])
    decreases |s|
  {
    if s != [] && IsWs(s[0]) {
      var k := |s| - |TrimStart(s)|;
      TrimStartParts(s[1..]);
      WsPrefixGrows(s, k - 1);
    }
  }

  /** One white-space character in front of a white-space prefix of the
      tail makes a longer white-space prefix. */
  lemma WsPrefixGrows(s: string, j: nat)
    requires j < |s| && IsWs(s[0]) && AllWs(s[1..][..j])
    ensures s[1..][j..] == s[j + 1..] && AllWs(s[..j + 1])
  {
    assert s[..j + 1] == [s[0]] + s[1..][..j];
  }

  /** What TrimEnd removes is white space, and what it keeps is the rest of
      `s`. */
  lemma {:induction false} TrimEndParts(s: string)
    ensures var k := |TrimEnd(s)|;
      TrimEnd(s) == s[..k] && AllWs(s[k..])
    decreases |s|
  {
    if s != [] && IsWs(s[|s| - 1]) {
      var k := |TrimEnd(s)|;
      TrimEndParts(s[..|s| - 1]);
      WsSuffixGrows(s, k);
    }
  }

  /** A white-space suffix of all but the last character, followed by a
      white-space last character, is a longer white-space suffix. */
  lemma WsSuffixGrows(s: string, k: nat)
    requires k < |s| && IsWs(s[|s| - 1]) && AllWs(s[..|s| - 1][k..])
    ensures s[..|s| - 1][..k] == s[..k] && AllWs(s[k..])
  {
    assert s[k..] == s[..|s| - 1][k..] + [s[|s| - 1]];
  }

  /** `String.prototype.trim`: drops white space at both ends. */
  function Trim(s: string): (r: string)
    ensures IsTrimmed(r) && |r| <= |s|
  {
    var t := TrimStart(s);
    TrimEndParts(t);
    TrimEnd(t)
  }

  /** What trimming keeps is a slice of `s` with only white space around it. */
  lemma TrimSlice(s: string)
    ensures var k := |s| - |TrimStart(s)|;
      && k + |Trim(s)| <= |s|
      && Trim(s) == s[k..k + |Trim(s)|]
      && AllWs(s[..k]) && AllWs(s[k + |Trim(s)|..])
  {
    var t := TrimStart(s);
    var k := |s| - |t|;
    TrimStartParts(s);
    TrimEndParts(t);
    SliceOfSuffix(s, k, |Trim(s)|);
  }

  lemma SliceOfSuffix(s: string, k: nat, m: nat)
    requires k + m <= |s|
    ensures s[k..][..m] == s[k..k + m] && s[k..][m..] == s[k + m..]
  {
  }

  lemma AllWsConcat(a: string, b: string)
    requires AllWs(a) && AllWs(b)
    ensures AllWs(a + b)
  {
    forall i | 0 <= i < |a + b| ensures IsWs((a + b)[i]) {
      if i >= |a| {
        assert (a + b)[i] == b[i - |a|];
      }
    }
  }

  lemma {:induction false} TrimStartAfterWs(w: string, x: string)
    requires AllWs(w)
    requires x == [] || !IsWs(x[0])
    ensures TrimStart(w + x) == x
  {
    if w != [] {
      assert (w + x)[1..] == w[1..] + x;
      TrimStartAfterWs(w[1..], x);
    }
  }

  lemma {:induction false} TrimEndBeforeWs(x: string, w: string)
    requires AllWs(w)
    requires x == [] || !IsWs(x[|x| - 1])
    ensures TrimEnd(x + w) == x
  {
    if w != [] {
      assert (x + w)[..|x + w| - 1] == x + w[..|w| - 1];
      TrimEndBeforeWs(x, w[..|w| - 1]);
    }
  }

  /** Trimming finds the one trimmed text that white space surrounds. */
  lemma TrimUnique(w1: string, r: string, w2: string)
    requires AllWs(w1) && AllWs(w2) && IsTrimmed(r)
    ensures Trim(w1 + r + w2) == r
  {
    if r == [] {
      assert w1 + r + w2 == w1 + w2;
      TrimStartAfterWs(w1 + w2, []);
      assert w1 + w2 + [] == w1 + w2;
    } else {
      assert w1 + r + w2 == w1 + (r + w2);
      TrimStartAfterWs(w1, r + w2);
      TrimEndBeforeWs(r, w2);
    }
  }

  /** A text is left unchanged by trimming exactly when it is trimmed. */
  lemma TrimFixpoint(s: string)
    ensures Trim(s) == s <==> IsTrimmed(s)
  {
    if IsTrimmed(s) {
      TrimUnique([], s, []);
      assert [] + s + [] == s;
    }
  }

  lemma TrimIdempotent(s: string)
    ensures Trim(Trim(s)) == Trim(s)
  {
    TrimFixpoint(Trim(s));
  }
}
