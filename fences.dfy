/**
 * The reply-normalisation chain of the `/analyze` handler:
 *   rawText.replace(/```json\s*\/gi, "").replace(/```/g, "").trim()
 * Each global replace is a left-to-right scan that takes the leftmost match,
 * deletes it and resumes just after it, so matches never overlap.
 */
module Fences {
  import opened Whitespace
  import opened Subsequence

  /** Three consecutive backticks start at index `i` of `s`. */
  predicate IsTripleTick(s: string, i: int)
  {
    0 <= i && i + 3 <= |s| && s[i] == '`' && s[i + 1] == '`' && s[i + 2] == '`'
  }

  /** A code-fence marker "```" occurs somewhere in `s`. */
  ghost predicate HasFence(s: string)
  {
    exists i :: IsTripleTick(s, i)
  }

  /** `s` contains no backtick at all. */
  ghost predicate NoTicks(s: string)
  {
    forall i :: 0 <= i < |s| ==> s[i] != '`'
  }

  /** A run of `n` backticks. */
  function Ticks(n: nat): (r: string)
    ensures |r| == n && forall i :: 0 <= i < n ==> r[i] == '`'
  {
    seq(n, _ => '`')
  }

  /** Under the `i` flag (without `u`), a pattern letter matches itself and
      its ASCII upper-case form only: no non-ASCII character folds onto an
      ASCII letter. */
  predicate MatchesCi(c: char, lower: char, upper: char)
  {
    c == lower || c == upper
  }

  /** "json" in any letter case. */
  predicate IsJsonTag(tag: string)
  {
    && |tag| == 4
    && MatchesCi(tag[0], 'j', 'J') && MatchesCi(tag[1], 's', 'S')
    && MatchesCi(tag[2], 'o', 'O') && MatchesCi(tag[3], 'n', 'N')
  }

  /** `s` starts with a match of the literal part of /```json\s*\/i. */
  predicate StartsJsonFence(s: string)
  {
    |s| >= 7 && IsTripleTick(s, 0) && IsJsonTag(s[3..7])
  }

  /** First step, `.replace(/```json\s*\/gi, "")`: every opening "```json"
      fence is deleted together with the greedy run of white space after it. */
  function StripJsonFences(s: string): (r: string)
    ensures |r| <= |s|
    decreases |s|
  {
    if StartsJsonFence(s) then StripJsonFences(TrimStart(s[7..]))
    else if s == [] then []
    else [s[0]] + StripJsonFences(s[1..])
  }

  /** Second step, `.replace(/```/g, "")`: every "```" is deleted, leftmost first. */
  function StripFences(s: string): (r: string)
    ensures |r| <= |s|
    decreases |s|
  {
    if IsTripleTick(s, 0) then StripFences(s[3..])
    else if s == [] then []
    else [s[0]] + StripFences(s[1..])
  }

  /** The whole chain: the `cleanedText` of the handler. */
  function Clean(rawText: string): (cleanedText: string)
    ensures IsTrimmed(cleanedText) && |cleanedText| <= |rawText|
  {
    Trim(StripFences(StripJsonFences(rawText)))
  }

  /** The non-backtick characters of `s`, in order. */
  function NonTicks(s: string): (r: string)
    ensures NoTicks(r)
  {
    if s == [] then []
    else if s[0] == '`' then NonTicks(s[1..])
    else [s[0]] + NonTicks(s[1..])
  }

  /** The number of backticks `s` starts with. */
  function LeadingTicks(s: string): (n: nat)
    ensures n <= |s| && s[..n] == Ticks(n)
    ensures n == |s| || s[n] != '`'
  {
    if s != [] && s[0] == '`' then
      var n := LeadingTicks(s[1..]);
      assert s[..n + 1] == ['`'] + s[1..][..n];
      n + 1
    else
      0
  }

  // ----- Removal only -----

  lemma {:induction false} StripJsonFencesDeletesOnly(s: string)
    ensures IsSubseq(StripJsonFences(s), s)
    decreases |s|
  {
    if StartsJsonFence(s) {
      var t := TrimStart(s[7..]);
      StripJsonFencesDeletesOnly(t);
      TrimStartParts(s[7..]);
      assert t == s[|s| - |t|..];
      SubseqOfSuffix(StripJsonFences(t), s, |s| - |t|);
    } else if s != [] {
      StripJsonFencesDeletesOnly(s[1..]);
    }
  }

  lemma {:induction false} StripFencesDeletesOnly(s: string)
    ensures IsSubseq(StripFences(s), s)
    decreases |s|
  {
    if IsTripleTick(s, 0) {
      StripFencesDeletesOnly(s[3..]);
      SubseqOfSuffix(StripFences(s[3..]), s, 3);
    } else if s != [] {
      StripFencesDeletesOnly(s[1..]);
    }
  }

  /** The second step removes backticks only: every other character survives, in order. */
  lemma {:induction false} StripFencesKeepsNonTicks(s: string)
    ensures NonTicks(StripFences(s)) == NonTicks(s)
    decreases |s|
  {
    if IsTripleTick(s, 0) {
      StripFencesKeepsNonTicks(s[3..]);
      assert s[1..][1..][1..] == s[3..];
      assert NonTicks(s) == NonTicks(s[1..]) == NonTicks(s[1..][1..]);
    } else if s != [] {
      StripFencesKeepsNonTicks(s[1..]);
      var r := StripFences(s);
      assert r[0] == s[0] && r[1..] == StripFences(s[1..]);
    }
  }

  // ----- No fence survives -----

  lemma TicksDrop(n: nat, t: string, k: nat)
    requires k <= n
    ensures (Ticks(n) + t)[k..] == Ticks(n - k) + t
  {
  }

  /** Three leading backticks are deleted as one match. */
  lemma StripFencesDropTriple(n: nat, t: string)
    requires n >= 3
    ensures StripFences(Ticks(n) + t) == StripFences(Ticks(n - 3) + t)
  {
    assert IsTripleTick(Ticks(n) + t, 0);
    TicksDrop(n, t, 3);
  }

  /** Fewer than three backticks before a non-backtick are no match. */
  lemma {:induction false} StripFencesShortRun(n: nat, t: string)
    requires n < 3 && (t == [] || t[0] != '`')
    ensures StripFences(Ticks(n) + t) == Ticks(n) + StripFences(t)
    decreases n
  {
    var s := Ticks(n) + t;
    if n > 0 {
      assert t != [] ==> s[n] == t[0];
      assert !IsTripleTick(s, 0);
      TicksDrop(n, t, 1);
      StripFencesShortRun(n - 1, t);
      assert Ticks(n) == [s[0]] + Ticks(n - 1);
    } else {
      assert s == t;
    }
  }

  /** `3 * q + m` leading backticks, `m < 3`, come out as `m`. */
  lemma {:induction false} StripFencesTriples(q: nat, m: nat, t: string)
    requires m < 3 && (t == [] || t[0] != '`')
    ensures StripFences(Ticks(3 * q + m) + t) == Ticks(m) + StripFences(t)
    decreases q
  {
    if q > 0 {
      StripFencesDropTriple(3 * q + m, t);
      StripFencesTriples(q - 1, m, t);
    } else {
      StripFencesShortRun(m, t);
    }
  }

  /** A maximal run of `n` backticks comes out of the second step as `n % 3` backticks. */
  lemma StripFencesRun(n: nat, t: string)
    requires t == [] || t[0] != '`'
    ensures StripFences(Ticks(n) + t) == Ticks(n % 3) + StripFences(t)
  {
    StripFencesTriples(n / 3, n % 3, t);
  }

  /** Slices of a fence-free text are fence-free. */
  lemma NoFenceSlice(t: string, i: nat, j: nat)
    requires i <= j <= |t| && !HasFence(t)
    ensures !HasFence(t[i..j])
  {
    forall k ensures !IsTripleTick(t[i..j], k) {
      if 0 <= k && k + 3 <= j - i {
        assert !IsTripleTick(t, i + k);
      }
    }
  }

  lemma NoFenceOfSlice(u: string, k: nat, c: string)
    requires k + |c| <= |u| && c == u[k..k + |c|] && !HasFence(u)
    ensures !HasFence(c)
  {
    NoFenceSlice(u, k, k + |c|);
  }

  /** At most two backticks, a non-backtick, then fence-free text: no fence. */
  lemma NoFenceJoin(p: string, c: char, x: string)
    requires |p| <= 2 && c != '`' && !HasFence(x)
    ensures !HasFence(p + [c] + x)
  {
    var w := p + [c] + x;
    forall i ensures !IsTripleTick(w, i) {
      if |p| < i && i + 3 <= |w| {
        assert !IsTripleTick(x, i - |p| - 1);
      } else if 0 <= i && i + 3 <= |w| {
        assert w[|p|] == c;
      }
    }
  }

  /** The second step leaves no "```" behind. */
  lemma {:induction false} StripFencesNoFence(s: string)
    ensures !HasFence(StripFences(s))
    decreases |s|
  {
    var k := LeadingTicks(s);
    assert s == Ticks(k) + s[k..];
    StripFencesRun(k, s[k..]);
    if k == |s| {
      assert StripFences(s) == Ticks(k % 3);
    } else {
      var t := s[k..];
      assert !IsTripleTick(t, 0);
      assert StripFences(t) == [t[0]] + StripFences(t[1..]);
      StripFencesNoFence(t[1..]);
      NoFenceJoin(Ticks(k % 3), t[0], StripFences(t[1..]));
      assert StripFences(s) == Ticks(k % 3) + [t[0]] + StripFences(t[1..]);
    }
  }

  // ----- Fixpoints -----

  lemma {:induction false} StripJsonFencesNoFence(t: string)
    requires !HasFence(t)
    ensures StripJsonFences(t) == t
    decreases |t|
  {
    if t != [] {
      assert !IsTripleTick(t, 0);
      NoFenceSlice(t, 1, |t|);
      assert t[1..|t|] == t[1..];
      StripJsonFencesNoFence(t[1..]);
    }
  }

  lemma {:induction false} StripFencesNoFenceIdentity(t: string)
    requires !HasFence(t)
    ensures StripFences(t) == t
    decreases |t|
  {
    if t != [] {
      assert !IsTripleTick(t, 0);
      NoFenceSlice(t, 1, |t|);
      assert t[1..|t|] == t[1..];
      StripFencesNoFenceIdentity(t[1..]);
    }
  }

  // ----- The whole chain -----

  /** Trimming only deletes characters. */
  lemma TrimDeletesOnly(u: string)
    ensures IsSubseq(Trim(u), u)
  {
    var k := |u| - |TrimStart(u)|;
    TrimSlice(u);
    SubseqOfSlice(Trim(u), u, k);
  }

  lemma SubseqOfSlice(c: string, u: string, k: nat)
    requires k + |c| <= |u| && c == u[k..k + |c|]
    ensures IsSubseq(c, u)
  {
    SliceIsSubseq(u, k, k + |c|);
  }

  /** Trimming a fence-free text leaves it fence-free. */
  lemma TrimKeepsNoFence(u: string)
    requires !HasFence(u)
    ensures !HasFence(Trim(u))
  {
    var k := |u| - |TrimStart(u)|;
    TrimSlice(u);
    NoFenceOfSlice(u, k, Trim(u));
  }

  /** Cleaning only deletes characters: nothing is added, nothing reordered. */
  lemma CleanDeletesOnly(rawText: string)
    ensures IsSubseq(Clean(rawText), rawText)
  {
    var v := StripJsonFences(rawText);
    var u := StripFences(v);
    StripJsonFencesDeletesOnly(rawText);
    StripFencesDeletesOnly(v);
    TrimDeletesOnly(u);
    SubseqTrans(u, v, rawText);
    SubseqTrans(Trim(u), u, rawText);
  }

  /** No "```" is left in the cleaned text. */
  lemma CleanHasNoFence(rawText: string)
    ensures !HasFence(Clean(rawText))
  {
    var u := StripFences(StripJsonFences(rawText));
    StripFencesNoFence(StripJsonFences(rawText));
    TrimKeepsNoFence(u);
  }

  /** The cleaned text is obtained from the reply by deletions only, carries
      no "```" and has no white space at either end. */
  lemma CleanResult(rawText: string)
    ensures IsSubseq(Clean(rawText), rawText)
    ensures !HasFence(Clean(rawText))
    ensures IsTrimmed(Clean(rawText))
  {
    CleanDeletesOnly(rawText);
    CleanHasNoFence(rawText);
  }

  /** Cleaning leaves a text unchanged exactly when it has no "```" and no
      surrounding white space. */
  lemma CleanFixpoint(t: string)
    ensures Clean(t) == t <==> !HasFence(t) && IsTrimmed(t)
  {
    if !HasFence(t) && IsTrimmed(t) {
      StripJsonFencesNoFence(t);
      StripFencesNoFenceIdentity(t);
      TrimFixpoint(t);
    } else {
      CleanResult(t);
    }
  }

  /** Cleaning twice is cleaning once. */
  lemma CleanIdempotent(rawText: string)
    ensures Clean(Clean(rawText)) == Clean(rawText)
  {
    CleanResult(rawText);
    CleanFixpoint(Clean(rawText));
  }

  // ----- A fenced reply -----

  lemma WsIsNotTick(w: string)
    requires AllWs(w)
    ensures NoTicks(w)
  {
  }

  /** Text free of backticks passes through the first step unchanged. */
  lemma {:induction false} StripJsonFencesPassThrough(w: string, x: string)
    requires NoTicks(w)
    ensures StripJsonFences(w + x) == w + StripJsonFences(x)
    decreases |w|
  {
    if w != [] {
      assert !IsTripleTick(w + x, 0);
      assert (w + x)[1..] == w[1..] + x;
      StripJsonFencesPassThrough(w[1..], x);
      assert StripJsonFences(w + x) == [w[0]] + StripJsonFences(w[1..] + x);
      assert w == [w[0]] + w[1..];
    } else {
      assert w + x == x;
    }
  }

  /** Text free of backticks passes through the second step unchanged. */
  lemma {:induction false} StripFencesPassThrough(w: string, x: string)
    requires NoTicks(w)
    ensures StripFences(w + x) == w + StripFences(x)
    decreases |w|
  {
    if w != [] {
      assert !IsTripleTick(w + x, 0);
      assert (w + x)[1..] == w[1..] + x;
      StripFencesPassThrough(w[1..], x);
      assert StripFences(w + x) == [w[0]] + StripFences(w[1..] + x);
      assert w == [w[0]] + w[1..];
    } else {
      assert w + x == x;
    }
  }

  /** A closing fence followed by white space is not an opening "```json". */
  lemma ClosingFenceSurvivesFirstStep(trail: string)
    requires AllWs(trail)
    ensures StripJsonFences("```" + trail) == "```" + trail
  {
    var x := "```" + trail;
    var y := x[1..];
    var z := y[1..];
    WsIsNotTick(trail);
    assert trail != [] ==> IsWs(trail[0]) && trail[0] != '`';
    assert y == "``" + trail && z == "`" + trail && z[1..] == trail;
    assert !StartsJsonFence(x) && !StartsJsonFence(y) && !StartsJsonFence(z);
    StripJsonFencesPassThrough(trail, []);
    assert trail + [] == trail;
    assert StripJsonFences(z) == ['`'] + trail;
    assert StripJsonFences(y) == ['`'] + StripJsonFences(z);
    assert StripJsonFences(x) == ['`'] + StripJsonFences(y);
  }

  lemma Regroup(a: string, b: string, c: string, d: string)
    ensures a + (b + c) + d == (a + b) + (c + d) == a + b + (c + d)
  {
  }

  lemma RegroupOpening(a: string, b: string, c: string, d: string, e: string, f: string, g: string)
    ensures a + b + c + d + e + f + g == a + (b + c + (d + e + f + g))
  {
  }

  lemma RegroupClosing(a: string, b: string, c: string, d: string)
    ensures a + (b + (c + d)) == a + b + c + d
  {
  }

  /** An opening "```json" is deleted with the white space that follows it. */
  lemma OpeningFence(tag: string, rest: string)
    requires IsJsonTag(tag)
    ensures StripJsonFences("```" + tag + rest) == StripJsonFences(TrimStart(rest))
  {
    var s := "```" + tag + rest;
    assert IsTripleTick(s, 0) && s[3..7] == tag && s[7..] == rest;
  }

  lemma TrimStartBeforeFence(gap: string, body: string, closing: string)
    requires AllWs(gap) && closing != [] && closing[0] == '`'
    ensures TrimStart(gap + body + closing) == TrimStart(body) + closing
  {
    var b := TrimStart(body);
    var p := body[..|body| - |b|];
    TrimStartParts(body);
    assert body == p + b;
    AllWsConcat(gap, p);
    assert gap + body + closing == (gap + p) + (b + closing) by {
      Regroup(gap, p, b, closing);
    }
    TrimStartAfterWs(gap + p, b + closing);
  }

  /** What follows the opening fence goes through the first step with only
      its leading white space removed. */
  lemma AfterOpeningFence(gap: string, body: string, trail: string)
    requires AllWs(gap) && NoTicks(body) && AllWs(trail)
    ensures StripJsonFences(TrimStart(gap + body + ("```" + trail)))
         == TrimStart(body) + ("```" + trail)
  {
    var b := TrimStart(body);
    TrimStartBeforeFence(gap, body, "```" + trail);
    TrimStartParts(body);
    assert NoTicks(b);
    StripJsonFencesPassThrough(b, "```" + trail);
    ClosingFenceSurvivesFirstStep(trail);
  }

  /** The first step deletes the opening fence with the white space after it
      and leaves the closing fence in place. */
  lemma FencedReplyFirstStep(lead: string, tag: string, gap: string, body: string, trail: string)
    requires AllWs(lead) && IsJsonTag(tag) && AllWs(gap) && NoTicks(body) && AllWs(trail)
    ensures StripJsonFences(lead + "```" + tag + gap + body + "```" + trail)
         == lead + (TrimStart(body) + ("```" + trail))
  {
    var rest := gap + body + ("```" + trail);
    RegroupOpening(lead, "```", tag, gap, body, "```", trail);
    assert gap + body + "```" + trail == rest;
    WsIsNotTick(lead);
    StripJsonFencesPassThrough(lead, "```" + tag + rest);
    OpeningFence(tag, rest);
    AfterOpeningFence(gap, body, trail);
  }

  /** The second step deletes the closing fence. */
  lemma FencedReplySecondStep(m: string, trail: string)
    requires NoTicks(m) && AllWs(trail)
    ensures StripFences(m + "```" + trail) == m + trail
  {
    var closing := "```" + trail;
    assert m + "```" + trail == m + closing;
    StripFencesPassThrough(m, closing);
    assert IsTripleTick(closing, 0) && closing[3..] == trail;
    WsIsNotTick(trail);
    StripFencesPassThrough(trail, []);
    assert trail + [] == trail;
  }

  /** Surrounding white space does not change what trimming keeps. */
  lemma TrimAroundTrimStart(lead: string, body: string, trail: string)
    requires AllWs(lead) && AllWs(trail)
    ensures Trim(lead + TrimStart(body) + trail) == Trim(body)
  {
    var b := TrimStart(body);
    var r := Trim(body);
    assert r == TrimEnd(b);
    var q := b[|r|..];
    TrimEndParts(b);
    assert b == r + q;
    AllWsConcat(q, trail);
    assert lead + b + trail == lead + r + (q + trail) by {
      assert b == r + q;
      Regroup(lead, r, q, trail);
    }
    TrimUnique(lead, r, q + trail);
  }

  /** A reply of the form: white space, "```" with "json" in any case, white
      space, a body without backticks, "```", white space; is cleaned to
      exactly the trimmed body. */
  lemma CleanFencedReply(lead: string, tag: string, gap: string, body: string, trail: string)
    requires AllWs(lead) && IsJsonTag(tag) && AllWs(gap) && NoTicks(body) && AllWs(trail)
    ensures Clean(lead + "```" + tag + gap + body + "```" + trail) == Trim(body)
  {
    var b := TrimStart(body);
    FencedReplyFirstStep(lead, tag, gap, body, trail);
    assert NoTicks(lead + b) by {
      TrimStartParts(body);
      WsIsNotTick(lead);
    }
    assert lead + (b + ("```" + trail)) == lead + b + "```" + trail by {
      RegroupClosing(lead, b, "```", trail);
    }
    FencedReplySecondStep(lead + b, trail);
    TrimAroundTrimStart(lead, body, trail);
  }

  /** A fence tagged with anything but "json" (such as "```js", or a tag
      shorter than four letters) loses only its backticks: the tag stays in
      the cleaned text. */
  lemma CleanOtherFence(m: string)
    requires NoTicks(m) && (|m| < 4 || !IsJsonTag(m[..4]))
    ensures Clean("```" + m + "```") == Trim(m)
  {
    var s := "```" + m + "```";
    var closing := m + "```";
    assert s[3..] == closing;
    assert !StartsJsonFence(s) by {
      if |m| >= 4 {
        assert s[3..7] == m[..4];
      } else if m != [] {
        assert s[3 + |m|] == '`';
        assert s[3..7][|m|] == '`';
      }
    }
    assert !StartsJsonFence(s[1..]) by {
      if m != [] {
        assert s[1..][2] == m[0];
      }
    }
    assert !StartsJsonFence(s[2..]) by {
      if m != [] {
        assert s[2..][1] == m[0];
      }
    }
    assert s[1..][1..] == s[2..] && s[2..][1..] == closing;
    assert StripJsonFences(closing) == closing by {
      StripJsonFencesPassThrough(m, "```");
      ClosingFenceSurvivesFirstStep([]);
      assert "```" + [] == "```";
    }
    var y := s[1..];
    var z := s[2..];
    assert StripJsonFences(z) == [z[0]] + StripJsonFences(closing);
    assert StripJsonFences(y) == [y[0]] + StripJsonFences(z);
    assert StripJsonFences(s) == [s[0]] + StripJsonFences(y);
    assert StripJsonFences(s) == s;
    assert IsTripleTick(s, 0);
    assert StripFences(s) == m by {
      FencedReplySecondStep(m, []);
      assert m + "```" + [] == closing && m + [] == m;
    }
  }
}
