/** The two regular expressions of update-agent-docs.py that are more than a
    literal (the notice of step 1 and the list item of step 4), each written as a
    hand-made matcher that answers: does the pattern match at the start of
    `t`, and where does the match the backtracking engine prefers end?
    Each matcher is proved against a declarative "span" predicate that says
    which prefixes of `t` belong to the pattern's language, with the
    positions of its wildcards made explicit. */
module Patterns {
  import opened Text

  /** Python's `\s` on `str` patterns: the Unicode whitespace characters
      (ASCII tab to carriage return, the four separator controls, space,
      NEL, NBSP, and the Unicode space separators and line/paragraph
      separators). */
  predicate IsSpace(c: char)
    ensures c == ' ' || c == '\t' || c == '\n' || c == '\r' || c == '\U{000B}' || c == '\U{000C}' ==> IsSpace(c)
    ensures 'a' <= c <= 'z' || 'A' <= c <= 'Z' || '0' <= c <= '9' || c == '*' || c == '#' ==> !IsSpace(c)
  {
    var n := c as int;
    (9 <= n <= 13) || (28 <= n <= 32) || n == 0x85 || n == 0xA0 || n == 0x1680
    || (0x2000 <= n <= 0x200A) || n == 0x2028 || n == 0x2029 || n == 0x202F
    || n == 0x205F || n == 0x3000
  }

  /** Length of the maximal run of whitespace in `t` starting at `i`. */
  function SpaceRun(t: string, i: nat): (w: nat)
    requires i <= |t|
    ensures i + w <= |t|
    ensures forall x :: i <= x < i + w ==> IsSpace(t[x])
    ensures i + w < |t| ==> !IsSpace(t[i + w])
    decreases |t| - i
  {
    if i < |t| && IsSpace(t[i]) then 1 + SpaceRun(t, i + 1) else 0
  }

  // ---------------------------------------------------------------------
  // Step 1: r'## Standing Orders\s+\*\*ALWAYS check.*?before beginning work\.\*\*[^\n]*\n\n'
  // compiled with re.DOTALL.

  const LEGACY_HEADING := "## Standing Orders"
  const ALWAYS_CHECK := "**ALWAYS check"
  const BEFORE_WORK := "before beginning work.**"

  /** A match of the legacy pattern at the start of `t`: `w` whitespace
      characters after the heading, the lazy `.*?` stopping at `k` (where
      "before beginning work.**" starts), and the match ending at `n` after
      the rest of that line and one blank line. */
  ghost predicate LegacySpan(t: string, w: nat, k: nat, n: nat) {
    && StartsWith(t, LEGACY_HEADING)
    && 1 <= w
    && |LEGACY_HEADING| + w <= |t|
    && (forall x :: |LEGACY_HEADING| <= x < |LEGACY_HEADING| + w ==> IsSpace(t[x]))
    && OccursAt(t, ALWAYS_CHECK, |LEGACY_HEADING| + w)
    && |LEGACY_HEADING| + w + |ALWAYS_CHECK| <= k
    && OccursAt(t, BEFORE_WORK, k)
    && k + |BEFORE_WORK| + 2 <= n <= |t|
    && (forall x :: k + |BEFORE_WORK| <= x < n - 2 ==> t[x] != '\n')
    && t[n - 2] == '\n' && t[n - 1] == '\n'
  }

  /** The positions a legacy match is made of. */
  datatype LegacyMatch = LegacyMatch(spaces: nat, gap: nat, len: nat)

  /** Whitespace run after the heading is forced: `\s+` must stop at the
      `*` that starts "**ALWAYS check". */
  lemma LegacySpacesForced(t: string, w: nat, k: nat, n: nat)
    requires LegacySpan(t, w, k, n)
    ensures w == SpaceRun(t, |LEGACY_HEADING|)
  {
    var h := |LEGACY_HEADING|;
    var r := SpaceRun(t, h);
    assert t[h + w] == t[h + w..h + w + |ALWAYS_CHECK|][0] == '*';
    assert !IsSpace('*');
  }

  /** Once the lazy gap is fixed, the end is forced: the greedy `[^\n]*`
      runs to the end of the line, which must be followed by a blank line. */
  lemma LegacyEndForced(t: string, w: nat, k: nat, n: nat)
    requires LegacySpan(t, w, k, n)
    ensures n == LineEnd(t, k + |BEFORE_WORK|) + 2
  {
  }

  /** The lazy gap may stop at `k`: "before beginning work.**" starts
      there, and the line it is on is followed by a blank line. */
  predicate GapAccepted(t: string, k: nat) {
    && OccursAt(t, BEFORE_WORK, k)
    && LineEnd(t, k + |BEFORE_WORK|) + 1 < |t|
    && t[LineEnd(t, k + |BEFORE_WORK|) + 1] == '\n'
  }

  /** Tries lazy gaps `k, k+1, ...` in turn, as the backtracking engine
      does, and stops at the first one accepted. */
  function FirstAcceptedGap(t: string, k: nat): (r: Option<nat>)
    ensures r.Some? ==> k <= r.value && GapAccepted(t, r.value)
    ensures forall k' :: k <= k' && (r.None? || k' < r.value) ==> !GapAccepted(t, k')
    decreases |t| - k
  {
    if k + |BEFORE_WORK| > |t| then None
    else if GapAccepted(t, k) then Some(k)
    else FirstAcceptedGap(t, k + 1)
  }

  /** Every legacy match is made of the forced whitespace run, an accepted
      gap after "**ALWAYS check", and the end of that gap's line. */
  lemma LegacySpanParts(t: string, w: nat, k: nat, n: nat)
    requires LegacySpan(t, w, k, n)
    ensures w == SpaceRun(t, |LEGACY_HEADING|)
    ensures GapAccepted(t, k) && n == LineEnd(t, k + |BEFORE_WORK|) + 2
  {
    LegacySpacesForced(t, w, k, n);
    LegacyEndForced(t, w, k, n);
    var e := LineEnd(t, k + |BEFORE_WORK|);
    assert e + 1 == n - 1 && t[n - 1] == '\n';
  }

  /** Conversely, an accepted gap after the opening gives a match. */
  lemma AcceptedGapSpan(t: string, w: nat, k: nat)
    requires StartsWith(t, LEGACY_HEADING) && 1 <= w && w == SpaceRun(t, |LEGACY_HEADING|)
    requires OccursAt(t, ALWAYS_CHECK, |LEGACY_HEADING| + w)
    requires |LEGACY_HEADING| + w + |ALWAYS_CHECK| <= k && GapAccepted(t, k)
    ensures LegacySpan(t, w, k, LineEnd(t, k + |BEFORE_WORK|) + 2)
  {
  }

  /** The leftmost-first match of the legacy pattern at the start of `t`:
      the first accepted gap after the forced opening. */
  function MatchLegacy(t: string): (r: Option<LegacyMatch>)
    ensures r.Some? ==> StartsWith(t, LEGACY_HEADING) && 0 < r.value.len <= |t|
    ensures r.Some? <==> LegacyOpened(t) && FirstAcceptedGap(t, LegacyGapStart(t)).Some?
    ensures r.Some? ==>
      && r.value.spaces == SpaceRun(t, |LEGACY_HEADING|)
      && Some(r.value.gap) == FirstAcceptedGap(t, LegacyGapStart(t))
      && r.value.len == LineEnd(t, r.value.gap + |BEFORE_WORK|) + 2
  {
    if !LegacyOpened(t) then None
    else match FirstAcceptedGap(t, LegacyGapStart(t))
      case None => None
      case Some(k) => Some(LegacyMatch(SpaceRun(t, |LEGACY_HEADING|), k, LineEnd(t, k + |BEFORE_WORK|) + 2))
  }

  /** The text opens as every legacy match must: the heading, at least one
      whitespace character, and "**ALWAYS check" right after them. */
  predicate LegacyOpened(t: string) {
    && StartsWith(t, LEGACY_HEADING)
    && SpaceRun(t, |LEGACY_HEADING|) > 0
    && OccursAt(t, ALWAYS_CHECK, |LEGACY_HEADING| + SpaceRun(t, |LEGACY_HEADING|))
  }

  /** Where the lazy gap can start once the text is opened. */
  function LegacyGapStart(t: string): nat
    requires StartsWith(t, LEGACY_HEADING)
  {
    |LEGACY_HEADING| + SpaceRun(t, |LEGACY_HEADING|) + |ALWAYS_CHECK|
  }

  /** `MatchLegacy` finds a match exactly when the pattern matches, and the
      one it finds has the shortest lazy gap of all. */
  lemma MatchLegacyIsLeftmost(t: string)
    ensures var r := MatchLegacy(t);
      && (r.Some? ==> LegacySpan(t, r.value.spaces, r.value.gap, r.value.len))
      && (r.Some? ==> forall w: nat, k: nat, n: nat :: LegacySpan(t, w, k, n) ==> r.value.gap <= k)
      && (r.None? ==> forall w: nat, k: nat, n: nat :: !LegacySpan(t, w, k, n))
  {
    var r := MatchLegacy(t);
    if r.Some? {
      LegacyLeftmost(t, r.value.gap);
    } else if StartsWith(t, LEGACY_HEADING) {
      NoLegacySpan(t);
    }
  }

  /** No legacy match when the opening is missing or no gap is accepted. */
  lemma NoLegacySpan(t: string)
    requires StartsWith(t, LEGACY_HEADING)
    requires !LegacyOpened(t) || FirstAcceptedGap(t, LegacyGapStart(t)).None?
    ensures forall w: nat, k: nat, n: nat :: !LegacySpan(t, w, k, n)
  {
    forall w: nat, k: nat, n: nat | LegacySpan(t, w, k, n)
      ensures false
    {
      LegacySpanParts(t, w, k, n);
    }
  }

  /** The first accepted gap gives the match with the shortest gap. */
  lemma LegacyLeftmost(t: string, k: nat)
    requires LegacyOpened(t)
    requires FirstAcceptedGap(t, LegacyGapStart(t)) == Some(k)
    ensures LegacySpan(t, SpaceRun(t, |LEGACY_HEADING|), k, LineEnd(t, k + |BEFORE_WORK|) + 2)
    ensures forall w: nat, k': nat, n: nat :: LegacySpan(t, w, k', n) ==> k <= k'
  {
    AcceptedGapSpan(t, SpaceRun(t, |LEGACY_HEADING|), k);
    forall w: nat, k': nat, n: nat | LegacySpan(t, w, k', n)
      ensures k <= k'
    {
      LegacySpanParts(t, w, k', n);
    }
  }

  // ---------------------------------------------------------------------
  // Step 4: r'- \*\*Technical Documentation\*\*: Reference.*?`\.claude/docs/tech/`.*?\n'
  // compiled without re.DOTALL, so `.` never matches a newline.

  const TECH_ITEM := "- **Technical Documentation**" + ": Reference"
  const TECH_DIR := "`.claude/docs/tech/`"

  /** A match of the tech-docs pattern at the start of `t`: the first lazy
      gap ends at `k`, where "`.claude/docs/tech/`" starts, and the match
      ends at `n`, just after a newline; neither gap holds a newline. */
  ghost predicate TechSpan(t: string, k: nat, n: nat) {
    && StartsWith(t, TECH_ITEM)
    && |TECH_ITEM| <= k
    && k + |TECH_DIR| < n <= |t|
    && (forall x :: |TECH_ITEM| <= x < k ==> t[x] != '\n')
    && OccursAt(t, TECH_DIR, k)
    && (forall x :: k + |TECH_DIR| <= x < n - 1 ==> t[x] != '\n')
    && t[n - 1] == '\n'
  }

  datatype TechMatch = TechMatch(gap: nat, len: nat)

  /** The leftmost-first match of the tech-docs pattern at the start of `t`:
      the first mention of the tech directory on the item's line, and the
      end of that line. Every match of the pattern ends at the same place. */
  function MatchTech(t: string): (r: Option<TechMatch>)
    ensures r.Some? ==> TechSpan(t, r.value.gap, r.value.len)
    ensures r.Some? ==> forall k: nat, n: nat :: TechSpan(t, k, n) ==> r.value.gap <= k && n == r.value.len
    ensures r.None? ==> forall k: nat, n: nat :: !TechSpan(t, k, n)
  {
    if !StartsWith(t, TECH_ITEM) then None
    else
      var e := LineEnd(t, |TECH_ITEM|);
      var f := FindFrom(t, TECH_DIR, |TECH_ITEM|);
      TechSpanShape(t, e, f);
      if e < |t| && f.Some? && f.value + |TECH_DIR| <= e then Some(TechMatch(f.value, e + 1))
      else None
  }

  /** Neither the item's opening nor the directory holds a newline. */
  lemma TechPiecesAreInline()
    ensures Lacks(TECH_ITEM, '\n') && Lacks(TECH_DIR, '\n')
  {
    assert Lacks("- **Technical Documentation**", '\n');
    assert Lacks(": Reference", '\n');
  }

  /** Every tech-docs match has its gap at or after the first mention of the
      tech directory and ends just after the item's line. */
  lemma TechSpanShape(t: string, e: nat, f: Option<nat>)
    requires StartsWith(t, TECH_ITEM)
    requires e == LineEnd(t, |TECH_ITEM|) && f == FindFrom(t, TECH_DIR, |TECH_ITEM|)
    ensures forall k: nat, n: nat :: TechSpan(t, k, n) ==>
      f.Some? && f.value <= k && k + |TECH_DIR| <= e && n == e + 1
  {
    forall k: nat, n: nat | TechSpan(t, k, n)
      ensures f.Some? && f.value <= k && k + |TECH_DIR| <= e && n == e + 1
    {
      TechPiecesAreInline();
      forall x | k <= x < k + |TECH_DIR|
        ensures t[x] != '\n'
      {
        CharInOccurrence(t, TECH_DIR, k, '\n', x);
      }
    }
  }

  // ---------------------------------------------------------------------
  // The patterns the rewriter substitutes. The regular expression of step 3
  // has no metacharacter left once its escapes are read, so it is a
  // `Literal`; the `re.search` of step 5 is modelled with `FindFrom`.

  datatype Pattern =
    | Literal(text: string)   // a plain string: str.replace, or a regex with no metacharacters
    | LegacyNotice            // step 1
    | TechDocsItem            // step 4

  /** The literal text every match of `pat` begins with. */
  function Anchor(pat: Pattern): string {
    match pat
    case Literal(s) => s
    case LegacyNotice => LEGACY_HEADING
    case TechDocsItem => TECH_ITEM
  }

  /** Length of the preferred match of `pat` at the start of `t`, if any.
      A literal matches only when it is non-empty. */
  function MatchLen(pat: Pattern, t: string): (r: Option<nat>)
    ensures r.Some? ==> 0 < r.value <= |t| && StartsWith(t, Anchor(pat))
    ensures pat.Literal? ==> (r.Some? <==> |pat.text| > 0 && StartsWith(t, pat.text))
    ensures pat.Literal? && r.Some? ==> r.value == |pat.text|
  {
    match pat
    case Literal(s) => if |s| > 0 && StartsWith(t, s) then Some(|s|) else None
    case LegacyNotice =>
      (match MatchLegacy(t) case Some(m) => Some(m.len) case None => None)
    case TechDocsItem =>
      (match MatchTech(t) case Some(m) => Some(m.len) case None => None)
  }
}
