# update-agent-docs: a verified model of the agent-document rewrite

`plugins/product-team/update-agent-docs.py` migrates agent definition files
from a project-specific, single-layer documentation scheme to a two-layer
one: the project's own `.claude/docs` first, then the plugin's copy. For
each document, `update_agent_file` reads the text and applies five rewrites
in a fixed order:

1. It deletes the legacy "## Standing Orders … **ALWAYS check … before
   beginning work.**" notice, up to and including the blank line after it.
2. It replaces the absolute BragDoc docs path by `<plugin path>/docs`.
3. It expands every `` `.claude/docs/standing-orders.md` `` reference so
   that it names both the project copy and the plugin copy.
4. It collapses the BragDoc "Technical Documentation" list item to a
   generic line.
5. When the text has no "## Documentation Lookup" heading, it inserts the
   rendered `DOC_LOOKUP_SECTION` before the first `##` after the front
   matter.

The script then writes the text back.

The model is pure, like the script, so it is written as functions and
lemmas. The plugin path, a module constant in the script, is a parameter
throughout. `DEFAULT_PLUGIN_PATH` is the script's value, and
`DefaultPluginPathIsPlain` shows that this value meets every condition the
lemmas place on the path.

- `text.dfy` (module `Text`): string search primitives.
  - `Contains` is Python's `in`.
  - `FindFrom` is `str.find`.
  - `LineEnd` is where a greedy `[^\n]*` stops.
- `patterns.dfy` (module `Patterns`): the two non-literal regular
  expressions.
  - Each is a hand-written matcher.
  - Each matcher is proved against a declarative "span" predicate. The
    predicate says which prefixes belong to the pattern, with the wildcard
    positions explicit.
  - The proofs show that the matcher returns the match Python's
    backtracking engine prefers: the lazy gaps are minimal and the greedy
    runs are forced.
- `substitution.dfy` (module `Substitution`): one leftmost-first,
  non-overlapping scan `Sub(pattern, replacement, text)` with its match
  counter `Count`.
  - This scan is `re.sub`, `str.replace`, and the single-field
    `str.format` the section template goes through.
  - The module also holds the general facts about the scan: length,
    absence of the pattern afterwards, preserved counts, and growth under
    repetition.
- `agent_docs.dfy` (module `AgentDocs`): the section template, the five
  rewrite steps, the whole rewrite `UpdateAgentDoc`, and the properties of
  each step.

Step 3 is not idempotent, and so neither is the whole rewrite. The
expansion on line 47 begins with the very reference that line 46 searches
for, so running the script a second time expands every reference again.
The model follows the code, and `ExpansionNotIdempotent` proves the
repetition. `UpdateIsNoOp` proves the weaker fact that does hold: a
document that already has the section and none of the legacy patterns is
left exactly as it is.

## Model

| member | source | states |
|---|---|---|
| Text.FindFrom | plugins/product-team/update-agent-docs.py:60-65 | the result is the smallest index at or after `from` where the string occurs, or none when it occurs nowhere from there (`str.find`, and `re.search`'s leftmost scan) |
| Text.ContainsFind | plugins/product-team/update-agent-docs.py:60 | `p in t` holds exactly when `find` from 0 succeeds |
| Text.LineEnd | plugins/product-team/update-agent-docs.py:31 | the end of a greedy `[^\n]*` run: no newline before it, and a newline at it unless the text ends there |
| Patterns.IsSpace | plugins/product-team/update-agent-docs.py:31 | Python's `\s` on text: the ASCII whitespace characters are whitespace; letters, digits, `*` and `#` are not |
| Patterns.SpaceRun | plugins/product-team/update-agent-docs.py:31 | the maximal `\s` run: every character in it is whitespace, and the next one is not |
| Patterns.LegacySpacesForced | plugins/product-team/update-agent-docs.py:31 | in every match, `\s+` covers exactly the maximal whitespace run after the heading |
| Patterns.LegacyEndForced | plugins/product-team/update-agent-docs.py:31 | once the lazy gap is fixed, every match ends just after the first newline following "before beginning work.**", plus one more newline |
| Patterns.LegacySpanParts | plugins/product-team/update-agent-docs.py:31 | every match is made of the maximal whitespace run, an accepted lazy gap, and the forced end |
| Patterns.AcceptedGapSpan | plugins/product-team/update-agent-docs.py:31 | conversely, an accepted gap after the forced opening yields a match |
| Patterns.FirstAcceptedGap | plugins/product-team/update-agent-docs.py:31 | the lazy `.*?` tries gaps in increasing order: the result is accepted and no earlier gap is |
| Patterns.MatchLegacy | plugins/product-team/update-agent-docs.py:30-35 | a match exists exactly when the text opens with the heading, whitespace and "**ALWAYS check" and some later gap is accepted; the match is built from the first accepted gap |
| Patterns.MatchLegacyIsLeftmost | plugins/product-team/update-agent-docs.py:30-35 | the matcher's result is a match of the pattern and has the shortest lazy gap of all matches; when it reports none, the pattern has no match at that position |
| Patterns.LegacyLeftmost | plugins/product-team/update-agent-docs.py:30-35 | the first accepted gap gives a match that no other match undercuts |
| Patterns.NoLegacySpan | plugins/product-team/update-agent-docs.py:30-35 | without the opening, or without an accepted gap, the pattern does not match |
| Patterns.MatchTech | plugins/product-team/update-agent-docs.py:53-57 | the tech-docs matcher returns a match of the pattern whose first lazy gap is the shortest, and every match ends at the same place; none means the pattern has no match there |
| Patterns.TechSpanShape | plugins/product-team/update-agent-docs.py:54 | every tech-docs match ends just after the item's own line and has its directory mention at or after the first one on that line |
| Patterns.TechPiecesAreInline | plugins/product-team/update-agent-docs.py:54 | the literal parts of the tech-docs pattern hold no newline |
| Patterns.MatchLen | plugins/product-team/update-agent-docs.py:30-57 | a match is non-empty, fits in the text and starts with the pattern's anchor; a literal matches exactly when the text starts with it, over its own length |
| Substitution.Sub | plugins/product-team/update-agent-docs.py:30-57 | the leftmost-first, non-overlapping scan of `re.sub` and `str.replace` (a definition; its properties are the lemmas below) |
| Substitution.Count | plugins/product-team/update-agent-docs.py:30-57 | the number of matches the scan replaces (for a literal, `str.count`), at most one per character |
| Substitution.SubWithoutAnchor | plugins/product-team/update-agent-docs.py:30-57 | a text that does not contain the pattern's anchor is left unchanged, with no match counted |
| Substitution.SubPastAnchorFree | plugins/product-team/update-agent-docs.py:30-57 | a stretch where no occurrence of the pattern's anchor starts is copied unchanged and the scan goes on after it |
| Substitution.SubKeepsLines | plugins/product-team/update-agent-docs.py:30-57 | for a pattern whose anchor has no newline, whole lines without the anchor are kept exactly |
| Substitution.SubLiteralLength | plugins/product-team/update-agent-docs.py:38-49 | replacing a literal changes the length by the match count times the difference in length |
| Substitution.SubDeleteShrinks | plugins/product-team/update-agent-docs.py:30-35 | deleting the matches shortens the text by at least one character per match |
| Substitution.OccurrenceCounted | plugins/product-team/update-agent-docs.py:38-49 | a literal that occurs anywhere in the text is counted at least once |
| Substitution.ReplacementShows | plugins/product-team/update-agent-docs.py:38-49 | when a match is replaced, the replacement text occurs in the output |
| Substitution.LiteralGone | plugins/product-team/update-agent-docs.py:38-41 | when no occurrence can start inside the replacement and no tail of the literal can run on into it, no occurrence of the literal is left after replacing |
| Substitution.NoStraddleFree | plugins/product-team/update-agent-docs.py:38-41 | a replacement that does not start with a character of the literal cannot complete a partial occurrence |
| Substitution.StraddleFreePrefix | plugins/product-team/update-agent-docs.py:38-41 | when no tail of the literal can run on into the replacement, an output that starts with a tail of the literal comes from an input that starts with it |
| Substitution.TailNotReplaced | plugins/product-team/update-agent-docs.py:38-41 | under the same condition, an output starting with a tail of the literal was not produced by a replacement at the front |
| Substitution.NoneStartsInsideFree | plugins/product-team/update-agent-docs.py:38-41 | a replacement without the literal's first character cannot hold the start of an occurrence, whatever follows it |
| Substitution.NoneStartsInsideByPairs | plugins/product-team/update-agent-docs.py:45-49 | the same when every occurrence of the literal's first character in the replacement is followed by something other than its second |
| Substitution.PrefixOfSelfStartingReplacement | plugins/product-team/update-agent-docs.py:45-49 | with a replacement that begins with the literal, a prefix of the output no longer than the literal is a prefix of the input |
| Substitution.UnmatchedStart | plugins/product-team/update-agent-docs.py:38-41 | where the input does not start with the literal and no tail of the literal can run on into the replacement, the output does not start with the literal |
| Substitution.UnmatchedStartSelf | plugins/product-team/update-agent-docs.py:45-49 | the same for a replacement that begins with the literal |
| Substitution.CountSkip | plugins/product-team/update-agent-docs.py:45-49 | skipping a stretch where no occurrence starts leaves the count of the rest |
| Substitution.SubPastLiteralFree | plugins/product-team/update-agent-docs.py:12-22 | a stretch without the literal's first character is copied and the scan carries on after it |
| Substitution.FillOne | plugins/product-team/update-agent-docs.py:12-22 | a field between brace-free text is filled with the replacement |
| Substitution.FillTwo | plugins/product-team/update-agent-docs.py:12-22 | both fields of a template with brace-free fixed text are filled and the fixed text is kept |
| Substitution.CountKept | plugins/product-team/update-agent-docs.py:45-49 | a replacement that begins with the literal and cannot start another occurrence after it keeps the match count |
| Substitution.RepeatGrows | plugins/product-team/update-agent-docs.py:45-49 | a replacement that begins with the literal and is longer than it makes a second pass grow the text again |
| AgentDocs.FixedTextHasNoBrace | plugins/product-team/update-agent-docs.py:12-21 | the template's fixed text holds neither `{` nor `}`, so `{plugin_path}` is its only field and no doubled brace is undone |
| AgentDocs.DocLookupSection | plugins/product-team/update-agent-docs.py:12-22 | the rendered section is the template's fixed text with the plugin path in both field positions |
| AgentDocs.HeadShape | plugins/product-team/update-agent-docs.py:12-18 | the text before the first field opens with a newline and the Documentation Lookup heading, and holds the standing-orders reference at offset 167 |
| AgentDocs.SectionShape | plugins/product-team/update-agent-docs.py:12-22 | the rendered section starts and ends with a newline, carries the Documentation Lookup heading at offset 1, and names the project's standing-orders reference in its first item |
| AgentDocs.NoPlaceholderLeft | plugins/product-team/update-agent-docs.py:12-22 | for any plugin path without `{`, no field is left in the rendered section |
| AgentDocs.RemoveLegacySection | plugins/product-team/update-agent-docs.py:29-35 | the removal shortens the text by at least one character per notice, and a text without the Standing Orders heading is unchanged |
| AgentDocs.RemovedSpanShape | plugins/product-team/update-agent-docs.py:29-35 | every deleted span starts with the heading, holds "**ALWAYS check" and "before beginning work.**", and ends with a blank line |
| AgentDocs.RemovalKeepsOtherLines | plugins/product-team/update-agent-docs.py:29-35 | lines before the first notice, up to a line break, are kept exactly |
| AgentDocs.ReplaceLegacyPaths | plugins/product-team/update-agent-docs.py:37-41 | the length changes by the number of legacy paths times the length difference, and a text without the legacy path is unchanged |
| AgentDocs.LegacyPathNotInside | plugins/product-team/update-agent-docs.py:37-41 | for any plugin path without `U`, no legacy path can start inside the plugin docs path, whatever follows it |
| AgentDocs.LegacyPathGone | plugins/product-team/update-agent-docs.py:37-41 | for a plugin path without `U` whose docs path cannot complete a partial legacy path, no legacy docs path is left after the replacement |
| AgentDocs.LegacyPathKeptOut | plugins/product-team/update-agent-docs.py:37-41 | relative paths whose first character is not in the legacy path, and absolute paths whose second character never follows a `/` in it, meet the condition of `LegacyPathGone` |
| AgentDocs.AbsolutePluginPathKeepsLegacyPathOut | plugins/product-team/update-agent-docs.py:37-41 | the absolute path `/opt/plugin` meets the condition of `LegacyPathGone` |
| AgentDocs.ExpandStandingOrdersRefs | plugins/product-team/update-agent-docs.py:43-49 | the text grows by the expansion's tail once per reference, and a text without the reference is unchanged |
| AgentDocs.ExpansionNotIdempotent | plugins/product-team/update-agent-docs.py:43-49 | on a text that holds the reference, running the step again changes the result |
| AgentDocs.NoReferenceInTail | plugins/product-team/update-agent-docs.py:47 | no reference can start inside the expansion's tail, whatever follows it |
| AgentDocs.BacktickPairs | plugins/product-team/update-agent-docs.py:47 | in the tail, every backtick is followed by something other than a dot |
| AgentDocs.ExpansionPreservesCount | plugins/product-team/update-agent-docs.py:43-49 | the expanded text holds as many references as the input |
| AgentDocs.CollapseTechDocs | plugins/product-team/update-agent-docs.py:51-57 | the collapse keeps the number of lines, and a text without the tech-docs item is unchanged |
| AgentDocs.CollapseKeepsOtherLines | plugins/product-team/update-agent-docs.py:51-57 | lines without the tech-docs item, up to a line break, are kept exactly |
| AgentDocs.TechMatchIsOneLine | plugins/product-team/update-agent-docs.py:54 | a tech-docs match covers exactly one line, with its newline last |
| AgentDocs.TechSpanIsOneLine | plugins/product-team/update-agent-docs.py:54 | every text the tech-docs pattern spans has no newline before its last character, which is a newline |
| AgentDocs.TechLineIsOneLine | plugins/product-team/update-agent-docs.py:55 | the generic replacement line is exactly one line |
| AgentDocs.MatchedLineCount | plugins/product-team/update-agent-docs.py:53-57 | cutting a tech-docs match off the front removes exactly one newline |
| AgentDocs.CollapsePreservesNewlines | plugins/product-team/update-agent-docs.py:53-57 | the collapse keeps the number of newlines |
| AgentDocs.InsertDocLookup | plugins/product-team/update-agent-docs.py:59-66 | a text with the heading is unchanged; otherwise the section is spliced, with a newline on each side, at the end of the intro group of the `re.search` match; without a match the text is unchanged |
| AgentDocs.IntroEndIsFound | plugins/product-team/update-agent-docs.py:62-65 | the first `---\n\n` and the first `##` at least one character after it form the match `re.search` reports, and it is the only one |
| AgentDocs.InsertAt | plugins/product-team/update-agent-docs.py:66 | the splice: the text before the insertion point, a newline, the section, a newline, and the rest of the text |
| AgentDocs.InsertAtKeepsSurroundings | plugins/product-team/update-agent-docs.py:66 | the splice keeps the text before and after the insertion point, keeps the `##` that follows, adds the heading, and grows the text by the section and two newlines |
| AgentDocs.InsertionOutcome | plugins/product-team/update-agent-docs.py:59-66 | the insertion leaves the text unchanged, or adds exactly the section and two newlines and the text then has the heading |
| AgentDocs.RewriteReferences | plugins/product-team/update-agent-docs.py:29-57 | steps 1 to 4 in order; a text with none of the four patterns is left unchanged |
| AgentDocs.UpdateAgentDoc | plugins/product-team/update-agent-docs.py:24-66 | the whole rewrite is steps 1-4, then either nothing or exactly one inserted section |
| AgentDocs.UpdateIsNoOp | plugins/product-team/update-agent-docs.py:24-66 | a document with the section and none of the legacy patterns is left exactly as it is |
| AgentDocs.DefaultPluginPathIsPlain | plugins/product-team/update-agent-docs.py:9 | the script's plugin path has no backslash, `{` or backtick, and meets the conditions of the lemmas on the plugin path |

## Left out

- File input and output: reading and writing the document, the `agents`
  directory listing and its sorting, the printed messages, `main`, and the
  `try`/`except` around each file. The model takes the text in and gives
  the text back.
- The plugin path is a parameter rather than the constant on line 9.
  `DefaultPluginPathIsPlain` ties the two together.
- The script uses four regular expressions (lines 31, 46, 54 and 62).
  There is no general regular-expression engine:
  - the notice of line 31 and the list item of line 54 each have their
    own matcher;
  - the pattern of line 46 has no metacharacter once its escapes are read,
    so it is a literal;
  - the `re.search` of line 62 is modelled with `FindFrom`.
- Python's `\s` is modelled by its code-point list. It is the same list as
  `str.isspace`.
- `str.format` is modelled as replacing the literal `{plugin_path}`. This is
  exact because `FixedTextHasNoBrace` proves the fixed text has no other
  field and no brace that `str.format` would undouble or reject.
- AgentDocs.ExpandStandingOrdersRefs: requires a plugin path without a
  backslash. `re.sub` processes escapes in its replacement string, and that
  processing is not modelled. With a backslash-free path the replacement is
  taken literally. `RewriteReferences` and `UpdateAgentDoc` carry the same
  requirement.
- AgentDocs.LegacyPathGone: is proved for plugin paths without `U` whose
  docs path cannot complete a partial legacy path (`NoStraddle`).
  - `LegacyPathKeptOut` shows two sufficient conditions. Relative paths
    such as `~/...` or `plugins/...` qualify, and so do absolute paths such
    as `/opt/plugin`.
  - The property fails for the empty path: the text
    "/Users/ed/Code/brag-ai/.claude" followed by the legacy path turns into
    a new legacy path.
  - The script's own path meets the condition.
- AgentDocs.ExpansionPreservesCount: is proved for plugin paths with no
  backtick that do not start with `.`. The property fails for the path
  ".claude", which makes the expansion hold a second reference.
- Whole-rewrite idempotence is not claimed, because the code does not have
  it (see `ExpansionNotIdempotent`).
