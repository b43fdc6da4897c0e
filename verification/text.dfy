/** Plain string searching: the primitives that Python's `in`, `str.find`
    and the literal parts of the regular expressions rely on. */
module Text {

  datatype Option<T> = None | Some(value: T)

  /** `p` occurs in `t` at index `q`. */
  predicate OccursAt(t: string, p: string, q: nat) {
    q + |p| <= |t| && t[q..q + |p|] == p
  }

  predicate StartsWith(t: string, p: string) {
    |p| <= |t| && t[..|p|] == p
  }

  /** Python's `p in t`. */
  ghost predicate Contains(t: string, p: string) {
    exists q: nat :: OccursAt(t, p, q)
  }

  /** Smallest index `q >= from` at which `p` occurs in `t`
      (Python's `t.find(p, from)`, with `None` for -1). */
  function FindFrom(t: string, p: string, from: nat): (r: Option<nat>)
    ensures r.Some? ==> from <= r.value && OccursAt(t, p, r.value)
    ensures r.Some? ==> forall q: nat :: from <= q < r.value ==> !OccursAt(t, p, q)
    ensures r.None? ==> forall q: nat :: from <= q ==> !OccursAt(t, p, q)
    decreases |t| - from
  {
    if from + |p| > |t| then None
    else if t[from..from + |p|] == p then Some(from)
    else FindFrom(t, p, from + 1)
  }

  /** Index of the first newline at or after `i`, or `|t|` when the rest of
      `t` has none: where a greedy `[^\n]*` started at `i` stops. */
  function LineEnd(t: string, i: nat): (e: nat)
    requires i <= |t|
    ensures i <= e <= |t|
    ensures forall x :: i <= x < e ==> t[x] != '\n'
    ensures e < |t| ==> t[e] == '\n'
    decreases |t| - i
  {
    if i == |t| || t[i] == '\n' then i else LineEnd(t, i + 1)
  }

  /** Number of newline characters in `s`. */
  function NewlineCount(s: string): (n: nat)
    ensures n <= |s|
    ensures n == 0 <==> '\n' !in s
  {
    if s == [] then 0
    else (if s[0] == '\n' then 1 else 0) + NewlineCount(s[1..])
  }

  lemma {:induction false} NewlineCountAppend(a: string, b: string)
    ensures NewlineCount(a + b) == NewlineCount(a) + NewlineCount(b)
    decreases |a|
  {
    if a == [] {
      assert a + b == b;
    } else {
      assert (a + b)[1..] == a[1..] + b;
      NewlineCountAppend(a[1..], b);
    }
  }

  lemma NewlineCountSplit(t: string, n: nat)
    requires n <= |t|
    ensures NewlineCount(t) == NewlineCount(t[..n]) + NewlineCount(t[n..])
  {
    assert t == t[..n] + t[n..];
    NewlineCountAppend(t[..n], t[n..]);
  }

  /** A single line with its terminator holds one newline. */
  lemma NewlineCountLine(s: string)
    requires |s| > 0 && Lacks(s[..|s| - 1], '\n') && s[|s| - 1] == '\n'
    ensures NewlineCount(s) == 1
  {
    assert s == s[..|s| - 1] + [s[|s| - 1]];
    NewlineCountAppend(s[..|s| - 1], [s[|s| - 1]]);
  }

  /** Two prefixes of the same string: one is a prefix of the other. */
  lemma CommonPrefix(o: string, a: string, b: string)
    ensures StartsWith(o, a) && StartsWith(o, b) ==> StartsWith(a, b) || StartsWith(b, a)
  {
    if StartsWith(o, a) && StartsWith(o, b) {
      if |b| <= |a| {
        assert a[..|b|] == o[..|a|][..|b|] == o[..|b|];
      } else {
        assert b[..|a|] == o[..|b|][..|a|] == o[..|a|];
      }
    }
  }

  /** A non-empty prefix, one character at a time. */
  lemma PrefixByHead(t: string, w: string)
    requires |w| > 0 && |t| > 0
    ensures StartsWith(t, w) <==> t[0] == w[0] && StartsWith(t[1..], w[1..])
  {
    if |w| <= |t| {
      assert t[..|w|] == [t[0]] + t[1..][..|w| - 1];
      assert w == [w[0]] + w[1..];
    }
  }

  /** `Contains` is `FindFrom` from the start. */
  lemma ContainsFind(t: string, p: string)
    ensures Contains(t, p) <==> FindFrom(t, p, 0).Some?
  {
    if FindFrom(t, p, 0).Some? {
      assert OccursAt(t, p, FindFrom(t, p, 0).value);
    }
  }

  lemma OccursAtStart(t: string, p: string)
    ensures OccursAt(t, p, 0) <==> StartsWith(t, p)
  {
  }

  /** Occurrences in a suffix are occurrences in the whole, shifted. */
  lemma OccursInSuffix(t: string, p: string, d: nat, q: nat)
    requires d <= |t|
    ensures OccursAt(t[d..], p, q) <==> OccursAt(t, p, q + d)
  {
    if q + |p| <= |t| - d {
      assert t[d..][q..q + |p|] == t[q + d..q + d + |p|];
    }
  }

  /** Occurrences in the right operand of a concatenation. */
  lemma OccursInRight(a: string, b: string, p: string, q: nat)
    ensures OccursAt(b, p, q) <==> OccursAt(a + b, p, q + |a|)
  {
    if q + |p| <= |b| {
      assert (a + b)[q + |a|..q + |a| + |p|] == b[q..q + |p|];
    }
  }

  /** `p` occurs where it is put between `a` and `b`. */
  lemma OccursBetween(a: string, p: string, b: string)
    ensures OccursAt(a + p + b, p, |a|)
  {
    assert (a + p + b)[|a|..|a| + |p|] == p;
  }

  /** Occurrences in the left operand of a concatenation. */
  lemma OccursInLeft(a: string, b: string, p: string, q: nat)
    requires OccursAt(a, p, q)
    ensures OccursAt(a + b, p, q)
  {
    assert (a + b)[q..q + |p|] == a[q..q + |p|];
  }

  /** `c !in s`, spelt out index by index: the form in which the verifier
      checks it cheaply against a string literal. */
  predicate Lacks(s: string, c: char) {
    forall i | 0 <= i < |s| :: s[i] != c
  }

  lemma LacksJoin(a: string, b: string, c: char)
    requires Lacks(a, c) && Lacks(b, c)
    ensures Lacks(a + b, c)
  {
    forall i | 0 <= i < |a + b|
      ensures (a + b)[i] != c
    {
      if i >= |a| {
        assert (a + b)[i] == b[i - |a|];
      }
    }
  }

  /** Inside an occurrence of `p`, the text has only characters of `p`. */
  lemma CharInOccurrence(t: string, p: string, q: nat, c: char, x: nat)
    requires OccursAt(t, p, q) && Lacks(p, c) && q <= x < q + |p|
    ensures t[x] != c
  {
    assert t[x] == t[q..q + |p|][x - q];
  }

  /** Where `p` occurs, so does every prefix of `p`. */
  lemma OccursPrefix(t: string, p: string, s: string, q: nat)
    requires OccursAt(t, p, q) && StartsWith(p, s)
    ensures OccursAt(t, s, q)
  {
    assert t[q..q + |s|] == t[q..q + |p|][..|s|];
  }

  /** An occurrence that ends by `n` is an occurrence in `t[..n]`. */
  lemma OccursInPrefix(t: string, p: string, q: nat, n: nat)
    requires OccursAt(t, p, q) && q + |p| <= n <= |t|
    ensures OccursAt(t[..n], p, q)
  {
    assert t[..n][q..q + |p|] == t[q..q + |p|];
  }

  /** A string none of whose characters is `c` contains no string that has `c`. */
  lemma AbsentCharNoOccurrence(t: string, p: string, c: char, q: nat)
    requires c in p && c !in t
    ensures !OccursAt(t, p, q)
  {
  }
}
