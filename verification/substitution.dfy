/** Python's `re.sub(pattern, repl, t)` and `t.replace(old, new)`: scan `t`
    from the left, replace each match by `repl`, resume the scan just after
    the match (so matches never overlap), and copy every character at which
    no match starts. None of the patterns here matches the empty string. */
module Substitution {
  import opened Text
  import opened Patterns

  function Sub(pat: Pattern, repl: string, t: string): (r: string)
    decreases |t|
  {
    if t == [] then []
    else match MatchLen(pat, t)
      case Some(n) => repl + Sub(pat, repl, t[n..])
      case None => [t[0]] + Sub(pat, repl, t[1..])
  }

  /** One step of the scan: a match at the start is replaced, otherwise the
      first character is copied. */
  lemma SubStep(pat: Pattern, repl: string, t: string)
    requires t != []
    ensures MatchLen(pat, t).Some? ==>
      Sub(pat, repl, t) == repl + Sub(pat, repl, t[MatchLen(pat, t).value..])
    ensures MatchLen(pat, t).None? ==> Sub(pat, repl, t) == [t[0]] + Sub(pat, repl, t[1..])
  {
  }

  /** Number of matches `Sub` replaces (for a literal: Python's `t.count(old)`). */
  function Count(pat: Pattern, t: string): (c: nat)
    ensures c <= |t|
    decreases |t|
  {
    if t == [] then 0
    else match MatchLen(pat, t)
      case Some(n) => 1 + Count(pat, t[n..])
      case None => Count(pat, t[1..])
  }

  lemma CountStep(pat: Pattern, t: string)
    requires t != []
    ensures MatchLen(pat, t).Some? ==> Count(pat, t) == 1 + Count(pat, t[MatchLen(pat, t).value..])
    ensures MatchLen(pat, t).None? ==> Count(pat, t) == Count(pat, t[1..])
  {
  }

  /** A text without the pattern's anchor text is left as it is. */
  lemma {:induction false} SubWithoutAnchor(pat: Pattern, repl: string, t: string)
    ensures !Contains(t, Anchor(pat)) ==> Sub(pat, repl, t) == t && Count(pat, t) == 0
    decreases |t|
  {
    if t != [] && !Contains(t, Anchor(pat)) {
      OccursAtStart(t, Anchor(pat));
      assert MatchLen(pat, t).None?;
      forall q: nat | OccursAt(t[1..], Anchor(pat), q)
        ensures false
      {
        OccursInSuffix(t, Anchor(pat), 1, q);
      }
      SubWithoutAnchor(pat, repl, t[1..]);
      assert [t[0]] + t[1..] == t;
    }
  }

  /** A stretch `a` in which no occurrence of the pattern's anchor starts
      is copied unchanged, and the scan carries on after it. */
  lemma {:induction false} SubPastAnchorFree(pat: Pattern, repl: string, a: string, b: string)
    requires forall q: nat :: q < |a| ==> !OccursAt(a + b, Anchor(pat), q)
    ensures Sub(pat, repl, a + b) == a + Sub(pat, repl, b)
    decreases |a|
  {
    if a == [] {
      assert a + b == b;
    } else {
      SubStep(pat, repl, a + b);
      OccursAtStart(a + b, Anchor(pat));
      assert (a + b)[1..] == a[1..] + b;
      forall q: nat | q < |a[1..]|
        ensures !OccursAt(a[1..] + b, Anchor(pat), q)
      {
        OccursInSuffix(a + b, Anchor(pat), 1, q);
      }
      SubPastAnchorFree(pat, repl, a[1..], b);
      assert [a[0]] + (a[1..] + Sub(pat, repl, b)) == a + Sub(pat, repl, b);
    }
  }

  /** For a pattern whose anchor holds no newline, whole lines that do not
      contain the anchor are left exactly as they are. */
  lemma SubKeepsLines(pat: Pattern, repl: string, a: string, b: string)
    requires Lacks(Anchor(pat), '\n')
    requires |a| > 0 && a[|a| - 1] == '\n' && !Contains(a, Anchor(pat))
    ensures Sub(pat, repl, a + b) == a + Sub(pat, repl, b)
  {
    var x, w := Anchor(pat), a + b;
    forall q: nat | q < |a|
      ensures !OccursAt(w, x, q)
    {
      if q + |x| <= |a| {
        assert w[q..q + |x|] == a[q..q + |x|];
        assert !OccursAt(a, x, q);
      } else if q + |x| <= |w| {
        var d := |a| - 1 - q;
        assert w[q..q + |x|][d] == w[|a| - 1] == a[|a| - 1] == '\n';
        assert x[d] != '\n';
      }
    }
    SubPastAnchorFree(pat, repl, a, b);
  }

  /** Replacing a literal changes the length by the count times the
      difference in length. */
  lemma {:induction false} SubLiteralLength(s: string, repl: string, t: string)
    requires |s| > 0
    ensures |Sub(Literal(s), repl, t)| == |t| + Count(Literal(s), t) * (|repl| - |s|)
    decreases |t|
  {
    if t == [] {
    } else if MatchLen(Literal(s), t).Some? {
      var rest := t[|s|..];
      SubLiteralLength(s, repl, rest);
      assert Sub(Literal(s), repl, t) == repl + Sub(Literal(s), repl, rest);
      var c, d := Count(Literal(s), rest), |repl| - |s|;
      assert Count(Literal(s), t) == 1 + c;
      MulSucc(c, d);
    } else {
      SubLiteralLength(s, repl, t[1..]);
      assert Sub(Literal(s), repl, t) == [t[0]] + Sub(Literal(s), repl, t[1..]);
    }
  }

  lemma MulSucc(c: nat, d: int)
    ensures (1 + c) * d == d + c * d
  {
  }

  /** Deleting matches never lengthens a text, and shortens it when at least
      one match is found. */
  lemma {:induction false} SubDeleteShrinks(pat: Pattern, t: string)
    ensures |Sub(pat, [], t)| + Count(pat, t) <= |t|
    decreases |t|
  {
    if t != [] {
      match MatchLen(pat, t)
      case Some(n) =>
        SubDeleteShrinks(pat, t[n..]);
      case None =>
        SubDeleteShrinks(pat, t[1..]);
    }
  }

  /** A literal that occurs in `t` is found by the scan at least once. */
  lemma {:induction false} OccurrenceCounted(s: string, t: string, q: nat)
    requires |s| > 0 && OccursAt(t, s, q)
    ensures Count(Literal(s), t) > 0
    decreases q
  {
    OccursAtStart(t, s);
    if MatchLen(Literal(s), t).None? {
      assert q > 0;
      OccursInSuffix(t, s, 1, q - 1);
      OccurrenceCounted(s, t[1..], q - 1);
    }
  }

  /** No proper suffix of the literal can run on into the replacement:
      for every split of `s` into a non-empty head and tail, the tail and
      `repl` differ within their common length. Otherwise text ending in the
      head, followed by a replacement, would spell `s` anew. */
  predicate NoStraddle(s: string, repl: string) {
    forall j | 1 <= j < |s| :: !StartsWith(s[j..], repl) && !StartsWith(repl, s[j..])
  }

  /** A replacement that does not start with a character of the literal
      cannot complete it. */
  lemma NoStraddleFree(s: string, repl: string)
    requires |repl| > 0 && repl[0] !in s
    ensures NoStraddle(s, repl)
  {
    forall j | 1 <= j < |s|
      ensures !StartsWith(s[j..], repl) && !StartsWith(repl, s[j..])
    {
      assert s[j..][0] == s[j] != repl[0];
      if |repl| <= |s[j..]| {
        assert s[j..][..|repl|][0] == s[j];
      } else {
        assert repl[..|s[j..]|][0] == repl[0];
      }
    }
  }

  /** Reading the output backwards: if the output of a literal replacement
      starts with a proper tail `s[j..]` of the literal, and no tail can run
      on into the replacement, then the input starts with that tail too. */
  lemma {:induction false} StraddleFreePrefix(s: string, repl: string, t: string, j: nat)
    requires 1 <= j <= |s| && NoStraddle(s, repl)
    requires StartsWith(Sub(Literal(s), repl, t), s[j..])
    ensures StartsWith(t, s[j..])
    decreases |t|
  {
    if j < |s| {
      var out, w := Sub(Literal(s), repl, t), s[j..];
      TailNotReplaced(s, repl, t, j);
      SubStep(Literal(s), repl, t);
      var rest := Sub(Literal(s), repl, t[1..]);
      assert out == [t[0]] + rest;
      PrefixByHead(out, w);
      assert out[1..] == rest && w[1..] == s[j + 1..];
      StraddleFreePrefix(s, repl, t[1..], j + 1);
      PrefixByHead(t, w);
    }
  }

  /** Where the output starts with a proper tail of the literal, the scan
      did not replace at the front: that would put `repl` where the tail
      is, which `NoStraddle` rules out. */
  lemma TailNotReplaced(s: string, repl: string, t: string, j: nat)
    requires 1 <= j < |s| && NoStraddle(s, repl)
    requires StartsWith(Sub(Literal(s), repl, t), s[j..])
    ensures t != [] && MatchLen(Literal(s), t).None?
  {
    var out, w := Sub(Literal(s), repl, t), s[j..];
    assert t != [];
    SubStep(Literal(s), repl, t);
    CommonPrefix(out, w, repl);
    assert !StartsWith(w, repl) && !StartsWith(repl, w);
    assert MatchLen(Literal(s), t).Some? ==> StartsWith(out, repl);
  }

  /** The same when the replacement begins with the literal it replaces:
      a prefix of the output no longer than the literal is a prefix of the
      input. */
  lemma {:induction false} PrefixOfSelfStartingReplacement(s: string, repl: string, t: string, w: string)
    requires StartsWith(repl, s) && |w| <= |s|
    requires StartsWith(Sub(Literal(s), repl, t), w)
    ensures StartsWith(t, w)
    decreases |t|
  {
    if w != [] {
      var out := Sub(Literal(s), repl, t);
      match MatchLen(Literal(s), t)
      case Some(n) =>
        assert out == repl + Sub(Literal(s), repl, t[n..]);
        assert out[..|w|] == repl[..|w|] == s[..|w|] == t[..|w|];
      case None =>
        assert out == [t[0]] + Sub(Literal(s), repl, t[1..]);
        assert StartsWith(Sub(Literal(s), repl, t[1..]), w[1..]) by {
          assert out[1..] == Sub(Literal(s), repl, t[1..]);
          assert out[1..][..|w| - 1] == out[..|w|][1..];
        }
        PrefixOfSelfStartingReplacement(s, repl, t[1..], w[1..]);
        assert t[..|w|] == [t[0]] + t[1..][..|w| - 1];
    }
  }

  /** Scanning past a stretch `a` in which no occurrence of `s` starts
      finds exactly the matches found in what follows it. */
  lemma {:induction false} CountSkip(s: string, a: string, b: string)
    requires |s| > 0
    requires forall q: nat :: q < |a| ==> !OccursAt(a + b, s, q)
    ensures Count(Literal(s), a + b) == Count(Literal(s), b)
    decreases |a|
  {
    if a == [] {
      assert a + b == b;
    } else {
      OccursAtStart(a + b, s);
      assert (a + b)[1..] == a[1..] + b;
      forall q: nat | q < |a[1..]|
        ensures !OccursAt(a[1..] + b, s, q)
      {
        OccursInSuffix(a + b, s, 1, q);
      }
      CountSkip(s, a[1..], b);
    }
  }

  /** A stretch holding no character that starts the literal is copied
      unchanged, and the scan carries on after it. */
  lemma {:induction false} SubPastLiteralFree(s: string, repl: string, a: string, b: string)
    requires |s| > 0 && s[0] !in a
    ensures Sub(Literal(s), repl, a + b) == a + Sub(Literal(s), repl, b)
    decreases |a|
  {
    if a == [] {
      assert a + b == b;
    } else {
      assert (a + b)[0] == a[0];
      assert MatchLen(Literal(s), a + b).None?;
      assert (a + b)[1..] == a[1..] + b;
      SubPastLiteralFree(s, repl, a[1..], b);
      assert [a[0]] + (a[1..] + Sub(Literal(s), repl, b)) == a + Sub(Literal(s), repl, b);
    }
  }

  /** Where the literal starts the text, the scan replaces it. */
  lemma SubAtLiteral(s: string, repl: string, b: string)
    requires |s| > 0 && StartsWith(b, s)
    ensures Sub(Literal(s), repl, b) == repl + Sub(Literal(s), repl, b[|s|..])
    ensures Count(Literal(s), b) == 1 + Count(Literal(s), b[|s|..])
  {
  }

  /** When at least one match is replaced, the replacement text occurs in
      the output. */
  lemma {:induction false} ReplacementShows(pat: Pattern, repl: string, t: string) returns (q: nat)
    requires Count(pat, t) > 0
    ensures OccursAt(Sub(pat, repl, t), repl, q)
    decreases |t|
  {
    var m := MatchLen(pat, t);
    SubStep(pat, repl, t);
    if m.Some? {
      q := 0;
      assert repl[0..|repl|] == repl;
      OccursInLeft(repl, Sub(pat, repl, t[m.value..]), repl, 0);
    } else {
      assert Count(pat, t) == Count(pat, t[1..]);
      var q' := ReplacementShows(pat, repl, t[1..]);
      OccursInRight([t[0]], Sub(pat, repl, t[1..]), repl, q');
      q := q' + 1;
    }
  }

  /** No occurrence of `s` can start inside `repl`, whatever follows it. */
  ghost predicate NoneStartsInside(s: string, repl: string) {
    forall q: nat, v: string :: q < |repl| ==> !OccursAt(repl + v, s, q)
  }

  /** A replacement without the literal's first character cannot hold the
      start of an occurrence. */
  lemma NoneStartsInsideFree(s: string, repl: string)
    requires |s| > 0 && s[0] !in repl
    ensures NoneStartsInside(s, repl)
  {
    forall q: nat, v: string | q < |repl|
      ensures !OccursAt(repl + v, s, q)
    {
      var w := repl + v;
      assert w[q] == repl[q] != s[0];
      if q + |s| <= |w| {
        assert w[q..q + |s|][0] == w[q];
      }
    }
  }

  /** Nor can it when every character of `repl` that equals the literal's
      first character is followed, inside `repl`, by one that is not its
      second. */
  lemma NoneStartsInsideByPairs(s: string, repl: string)
    requires |s| >= 2
    requires forall q :: 0 <= q < |repl| ==> repl[q] != s[0] || (q + 1 < |repl| && repl[q + 1] != s[1])
    ensures NoneStartsInside(s, repl)
  {
    forall q: nat, v: string | q < |repl|
      ensures !OccursAt(repl + v, s, q)
    {
      var w := repl + v;
      assert repl[q] != s[0] || (q + 1 < |repl| && repl[q + 1] != s[1]);
      if q + |s| <= |w| {
        var m := w[q..q + |s|];
        assert m[0] == w[q] == repl[q];
        assert m[1] == w[q + 1];
        if q + 1 < |repl| {
          assert w[q + 1] == repl[q + 1];
        }
        assert m[0] != s[0] || m[1] != s[1];
      }
    }
  }

  /** Where no match starts, the scan copies the first character; if no
      tail of the literal can run on into the replacement, the output does
      not start with the literal either. */
  lemma UnmatchedStart(s: string, repl: string, t: string)
    requires |s| > 0 && NoStraddle(s, repl)
    requires t != [] && MatchLen(Literal(s), t).None?
    ensures !StartsWith(Sub(Literal(s), repl, t), s)
  {
    var out, rest := Sub(Literal(s), repl, t), Sub(Literal(s), repl, t[1..]);
    SubStep(Literal(s), repl, t);
    assert out == [t[0]] + rest;
    if StartsWith(out, s) {
      assert StartsWith(rest, s[1..]) by {
        assert rest[..|s| - 1] == out[1..|s|] == s[1..];
      }
      StraddleFreePrefix(s, repl, t[1..], 1);
    }
  }

  /** When no occurrence of the literal can start inside the replacement,
      and no tail of the literal can run on into it, no occurrence of the
      literal is left after replacing. */
  lemma {:induction false} LiteralGone(s: string, repl: string, t: string)
    requires |s| > 0 && |repl| > 0 && NoStraddle(s, repl) && NoneStartsInside(s, repl)
    ensures !Contains(Sub(Literal(s), repl, t), s)
    decreases |t|
  {
    var out := Sub(Literal(s), repl, t);
    if t != [] {
      SubStep(Literal(s), repl, t);
      if MatchLen(Literal(s), t).Some? {
        var rest := Sub(Literal(s), repl, t[|s|..]);
        assert out == repl + rest;
        LiteralGone(s, repl, t[|s|..]);
        forall q: nat | OccursAt(out, s, q)
          ensures false
        {
          if q >= |repl| {
            OccursInRight(repl, rest, s, q - |repl|);
          }
        }
      } else {
        var rest := Sub(Literal(s), repl, t[1..]);
        assert out == [t[0]] + rest;
        LiteralGone(s, repl, t[1..]);
        UnmatchedStart(s, repl, t);
        forall q: nat | OccursAt(out, s, q)
          ensures false
        {
          if q > 0 {
            OccursInRight([t[0]], rest, s, q - 1);
          }
        }
      }
    }
  }

  /** A stretch free of the literal's first character, then the literal:
      the stretch is copied and the literal replaced. */
  lemma FillOne(s: string, repl: string, a: string, rest: string)
    requires |s| > 0 && s[0] !in a
    ensures Sub(Literal(s), repl, a + s + rest) == a + repl + Sub(Literal(s), repl, rest)
  {
    var t0 := s + rest;
    assert a + s + rest == a + t0;
    SubPastLiteralFree(s, repl, a, t0);
    SubAtLiteral(s, repl, t0);
    assert t0[|s|..] == rest;
  }

  /** A text with two occurrences of a literal, separated by stretches that
      hold no character starting it, gets both replaced and nothing else. */
  lemma FillTwo(s: string, repl: string, a: string, b: string, c: string)
    requires |s| > 0 && s[0] !in a && s[0] !in b && s[0] !in c
    ensures Sub(Literal(s), repl, a + s + b + s + c) == a + repl + b + repl + c
  {
    assert a + s + b + s + c == a + s + (b + s + c);
    FillOne(s, repl, a, b + s + c);
    FillOne(s, repl, b, c);
    SubPastLiteralFree(s, repl, c, []);
    assert c + [] == c;
  }

  /** Where no match starts, the scan copies the first character; if the
      replacement starts with the literal, the output does not start with
      the literal either. */
  lemma UnmatchedStartSelf(s: string, repl: string, t: string)
    requires |s| > 0 && StartsWith(repl, s)
    requires t != [] && MatchLen(Literal(s), t).None?
    ensures !StartsWith(Sub(Literal(s), repl, t), s)
  {
    var out, rest := Sub(Literal(s), repl, t), Sub(Literal(s), repl, t[1..]);
    assert out == [t[0]] + rest;
    if StartsWith(out, s) {
      assert StartsWith(rest, s[1..]) by {
        assert rest[..|s| - 1] == out[1..|s|] == s[1..];
      }
      PrefixOfSelfStartingReplacement(s, repl, t[1..], s[1..]);
    }
  }

  /** A replacement that starts with the literal and has no further
      occurrence starting after it leaves the number of matches unchanged. */
  lemma {:induction false} CountKept(s: string, repl: string, t: string)
    requires |s| > 0 && StartsWith(repl, s) && NoneStartsInside(s, repl[|s|..])
    ensures Count(Literal(s), Sub(Literal(s), repl, t)) == Count(Literal(s), t)
    decreases |t|
  {
    if t != [] {
      var out := Sub(Literal(s), repl, t);
      SubStep(Literal(s), repl, t);
      CountStep(Literal(s), t);
      if MatchLen(Literal(s), t).Some? {
        var extra, rest := repl[|s|..], Sub(Literal(s), repl, t[|s|..]);
        CountKept(s, repl, t[|s|..]);
        assert out == s + (extra + rest) by {
          assert repl == s + extra;
        }
        assert out[..|s|] == s && out[|s|..] == extra + rest;
        CountStep(Literal(s), out);
        CountSkip(s, extra, rest);
      } else {
        var rest := Sub(Literal(s), repl, t[1..]);
        CountKept(s, repl, t[1..]);
        UnmatchedStartSelf(s, repl, t);
        assert out[1..] == rest;
        CountStep(Literal(s), out);
      }
    }
  }

  /** A replacement that starts with the literal and is longer than it
      makes the text grow again on every further pass once one match has
      been replaced: the substitution is not idempotent. */
  lemma RepeatGrows(s: string, repl: string, t: string)
    requires |s| > 0 && StartsWith(repl, s) && |repl| > |s|
    requires Count(Literal(s), t) > 0
    ensures |Sub(Literal(s), repl, Sub(Literal(s), repl, t))| > |Sub(Literal(s), repl, t)|
  {
    var u := Sub(Literal(s), repl, t);
    var q := ReplacementShows(Literal(s), repl, t);
    OccursPrefix(u, repl, s, q);
    OccurrenceCounted(s, u, q);
    SubLiteralLength(s, repl, u);
    PositiveProduct(Count(Literal(s), u), |repl| - |s|);
  }

  lemma PositiveProduct(c: int, d: int)
    requires c > 0 && d > 0
    ensures c * d > 0
  {
  }
}
