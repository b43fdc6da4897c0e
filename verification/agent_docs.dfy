/** The rewrite that update-agent-docs.py applies to one agent document:
    five string transformations run in a fixed order, followed here by the
    rendering of the Documentation Lookup section they insert. The plugin
    path, a module constant in the script, is a parameter throughout. */
module AgentDocs {
  import opened Text
  import opened Patterns
  import opened Substitution

  /** The script's default plugin path. */
  const DEFAULT_PLUGIN_PATH := PLUGINS_ROOT + PLUGIN_REPO
  const PLUGINS_ROOT := "~/.claude/plugins/"
  const PLUGIN_REPO := "repos/software-dev-workflow"

  // ---------------------------------------------------------------------
  // The Documentation Lookup section.

  const DOC_HEADING := "## Documentation Lookup"
  const PLACEHOLDER := "{plugin_path}"

  /** The lines of the section template, phrase by phrase. */
  const IMPORTANT_LINE := "**IMPORTANT: This plugin uses " + "layered documentation.**"
  const ORDER_LINE := "Before beginning work, check " + "these documents in order:"
  const PROCESS_REF := "`.claude/docs/processes/" + "[relevant-process].md`"
  const PREFERENCE_LINE :=
    "If both project and plugin " + "versions exist, use the project "
    + "version as it contains " + "project-specific extensions " + "or overrides."

  /** The fixed text of the section template before, between and after its
      two `{plugin_path}` fields. */
  const SECTION_TOP := "\n" + DOC_HEADING
  const SECTION_LEAD := "\n\n" + IMPORTANT_LINE + "\n\n" + ORDER_LINE + "\n" + "1. **Standing Orders**: Check "
  const SECTION_HEAD := SECTION_TOP + SECTION_LEAD + STANDING_ORDERS_REF + " (project) OR `"
  const SECTION_MIDDLE :=
    "/docs/standing-orders.md` (plugin)\n" + "2. **Process Rules**: Check " + PROCESS_REF + " (project) OR `"
  const SECTION_TAIL := "/docs/processes/" + "[relevant-process].md` (plugin)\n\n" + PREFERENCE_LINE + "\n"

  /** The section template, with its two `{plugin_path}` fields. */
  const SECTION_TEMPLATE := SECTION_HEAD + PLACEHOLDER + SECTION_MIDDLE + PLACEHOLDER + SECTION_TAIL

  /** Where the section's own standing-orders reference starts. */
  const SECTION_REF_AT := 167

  /** The fixed text holds no brace, so `str.format` finds no field but
      the two and no escaped brace to undouble. */
  lemma FixedTextHasNoBrace()
    ensures '{' !in SECTION_HEAD && '{' !in SECTION_MIDDLE && '{' !in SECTION_TAIL
    ensures '}' !in SECTION_HEAD && '}' !in SECTION_MIDDLE && '}' !in SECTION_TAIL
  {
    HeadHasNoBrace('{');
    MiddleHasNoBrace('{');
    TailHasNoBrace('{');
    HeadHasNoBrace('}');
    MiddleHasNoBrace('}');
    TailHasNoBrace('}');
  }

  predicate IsBrace(c: char) {
    c == '{' || c == '}'
  }

  lemma LinesHaveNoBrace(c: char)
    requires IsBrace(c)
    ensures Lacks(IMPORTANT_LINE, c) && Lacks(ORDER_LINE, c) && Lacks(PROCESS_REF, c)
  {
    LacksJoin("**IMPORTANT: This plugin uses ", "layered documentation.**", c);
    LacksJoin("Before beginning work, check ", "these documents in order:", c);
    LacksJoin("`.claude/docs/processes/", "[relevant-process].md`", c);
  }

  lemma PreferenceHasNoBrace(c: char)
    requires IsBrace(c)
    ensures Lacks(PREFERENCE_LINE, c)
  {
    var a, b, d := "If both project and plugin ", "versions exist, use the project ", "version as it contains ";
    var e, f := "project-specific extensions ", "or overrides.";
    LacksJoin(a, b, c);
    LacksJoin(a + b, d, c);
    LacksJoin(a + b + d, e, c);
    LacksJoin(a + b + d + e, f, c);
  }

  lemma HeadHasNoBrace(c: char)
    requires IsBrace(c)
    ensures c !in SECTION_HEAD
  {
    LinesHaveNoBrace(c);
    var a, b, d := "\n\n", IMPORTANT_LINE, "\n\n";
    var e, f, g := ORDER_LINE, "\n", "1. **Standing Orders**: Check ";
    LacksJoin(a, b, c);
    LacksJoin(a + b, d, c);
    LacksJoin(a + b + d, e, c);
    LacksJoin(a + b + d + e, f, c);
    LacksJoin(a + b + d + e + f, g, c);
    LacksJoin("\n", DOC_HEADING, c);
    LacksJoin(SECTION_TOP, SECTION_LEAD, c);
    LacksJoin(SECTION_TOP + SECTION_LEAD, STANDING_ORDERS_REF, c);
    LacksJoin(SECTION_TOP + SECTION_LEAD + STANDING_ORDERS_REF, " (project) OR `", c);
  }

  lemma MiddleHasNoBrace(c: char)
    requires IsBrace(c)
    ensures c !in SECTION_MIDDLE
  {
    LinesHaveNoBrace(c);
    var a, b := "/docs/standing-orders.md` (plugin)\n", "2. **Process Rules**: Check ";
    LacksJoin(a, b, c);
    LacksJoin(a + b, PROCESS_REF, c);
    LacksJoin(a + b + PROCESS_REF, " (project) OR `", c);
  }

  lemma TailHasNoBrace(c: char)
    requires IsBrace(c)
    ensures c !in SECTION_TAIL
  {
    PreferenceHasNoBrace(c);
    var a, b := "/docs/processes/", "[relevant-process].md` (plugin)\n\n";
    LacksJoin(a, b, c);
    LacksJoin(a + b, PREFERENCE_LINE, c);
    LacksJoin(a + b + PREFERENCE_LINE, "\n", c);
  }

  /** `DOC_LOOKUP_SECTION`: `str.format` fills both fields of the template
      with the plugin path and leaves the rest as it is. */
  function DocLookupSection(pluginPath: string): (r: string)
    ensures r == SECTION_HEAD + pluginPath + SECTION_MIDDLE + pluginPath + SECTION_TAIL
  {
    FixedTextHasNoBrace();
    FillTwo(PLACEHOLDER, pluginPath, SECTION_HEAD, SECTION_MIDDLE, SECTION_TAIL);
    Sub(Literal(PLACEHOLDER), pluginPath, SECTION_TEMPLATE)
  }

  /** The fixed text before the first field opens with a newline and the
      Documentation Lookup heading, and names the project's standing-orders
      reference at `SECTION_REF_AT`. */
  lemma HeadShape()
    ensures |SECTION_HEAD| > 0 && SECTION_HEAD[0] == '\n'
    ensures OccursAt(SECTION_HEAD, DOC_HEADING, 1)
    ensures OccursAt(SECTION_HEAD, STANDING_ORDERS_REF, SECTION_REF_AT)
  {
    HeadOpensWithHeading();
    HeadNamesReference();
  }

  lemma HeadOpensWithHeading()
    ensures |SECTION_HEAD| > 0 && SECTION_HEAD[0] == '\n'
    ensures OccursAt(SECTION_HEAD, DOC_HEADING, 1)
  {
    var top, lead, ref, after := SECTION_TOP, SECTION_LEAD, STANDING_ORDERS_REF, " (project) OR `";
    OccursInRight("\n", DOC_HEADING, DOC_HEADING, 0);
    OccursInLeft(top, lead, DOC_HEADING, 1);
    OccursInLeft(top + lead, ref, DOC_HEADING, 1);
    OccursInLeft(top + lead + ref, after, DOC_HEADING, 1);
  }

  lemma HeadNamesReference()
    ensures OccursAt(SECTION_HEAD, STANDING_ORDERS_REF, SECTION_REF_AT)
  {
    assert |SECTION_TOP + SECTION_LEAD| == SECTION_REF_AT;
    OccursBetween(SECTION_TOP + SECTION_LEAD, STANDING_ORDERS_REF, " (project) OR `");
  }

  /** The rendered section starts and ends with a newline, opens with the
      Documentation Lookup heading, and its first item names the project's
      standing-orders reference. */
  lemma SectionShape(pluginPath: string)
    ensures var r := DocLookupSection(pluginPath);
      && r[0] == '\n' && r[|r| - 1] == '\n'
      && OccursAt(r, DOC_HEADING, 1)
      && OccursAt(r, STANDING_ORDERS_REF, SECTION_REF_AT)
  {
    var h, p, m, t := SECTION_HEAD, pluginPath, SECTION_MIDDLE, SECTION_TAIL;
    HeadShape();
    PrefixOccurrence(h, p, m, p, t, DOC_HEADING, 1);
    PrefixOccurrence(h, p, m, p, t, STANDING_ORDERS_REF, SECTION_REF_AT);
    assert t[|t| - 1] == '\n';
  }

  /** An occurrence in the first of five parts is one in the whole. */
  lemma PrefixOccurrence(a: string, b: string, c: string, d: string, e: string, w: string, q: nat)
    requires OccursAt(a, w, q)
    ensures OccursAt(a + b + c + d + e, w, q)
  {
    OccursInLeft(a, b, w, q);
    OccursInLeft(a + b, c, w, q);
    OccursInLeft(a + b + c, d, w, q);
    OccursInLeft(a + b + c + d, e, w, q);
  }

  /** With a plugin path that has no `{`, no field is left in the section:
      the rendered text holds no `{` at all. */
  lemma NoPlaceholderLeft(pluginPath: string)
    requires '{' !in pluginPath
    ensures !Contains(DocLookupSection(pluginPath), PLACEHOLDER)
  {
    var h, p, m, t := SECTION_HEAD, pluginPath, SECTION_MIDDLE, SECTION_TAIL;
    FixedTextHasNoBrace();
    assert Lacks(h, '{') && Lacks(p, '{') && Lacks(m, '{') && Lacks(t, '{');
    LacksJoin(h, p, '{');
    LacksJoin(h + p, m, '{');
    LacksJoin(h + p + m, p, '{');
    LacksJoin(h + p + m + p, t, '{');
    var r := DocLookupSection(pluginPath);
    assert '{' in PLACEHOLDER && '{' !in r;
    forall q: nat
      ensures !OccursAt(r, PLACEHOLDER, q)
    {
      AbsentCharNoOccurrence(r, PLACEHOLDER, '{', q);
    }
  }

  // ---------------------------------------------------------------------
  // Step 1: remove the legacy Standing Orders notice.

  /** Deletes every legacy Standing Orders notice (see `LegacySpan`). */
  function RemoveLegacySection(t: string): (r: string)
    ensures |r| + Count(LegacyNotice, t) <= |t|
    ensures !Contains(t, LEGACY_HEADING) ==> r == t
  {
    SubDeleteShrinks(LegacyNotice, t);
    SubWithoutAnchor(LegacyNotice, [], t);
    Sub(LegacyNotice, [], t)
  }

  /** Every span the removal deletes starts with the Standing Orders heading
      and ends with a blank line, with "**ALWAYS check" and "before
      beginning work.**" in between. */
  lemma RemovedSpanShape(t: string)
    requires MatchLen(LegacyNotice, t).Some?
    ensures var n := MatchLen(LegacyNotice, t).value;
      && StartsWith(t, LEGACY_HEADING)
      && 2 + |LEGACY_HEADING| + |ALWAYS_CHECK| + |BEFORE_WORK| < n
      && t[n - 2] == '\n' && t[n - 1] == '\n'
      && Contains(t[..n], ALWAYS_CHECK) && Contains(t[..n], BEFORE_WORK)
  {
    MatchLegacyIsLeftmost(t);
    var m := MatchLegacy(t).value;
    var n := m.len;
    OccursInPrefix(t, ALWAYS_CHECK, |LEGACY_HEADING| + m.spaces, n);
    OccursInPrefix(t, BEFORE_WORK, m.gap, n);
  }

  /** Lines before the first notice, up to a line break, are kept as they
      are: the heading holds no newline, so no notice can start in them. */
  lemma RemovalKeepsOtherLines(a: string, b: string)
    requires |a| > 0 && a[|a| - 1] == '\n' && !Contains(a, LEGACY_HEADING)
    ensures RemoveLegacySection(a + b) == a + RemoveLegacySection(b)
  {
    assert Lacks(LEGACY_HEADING, '\n');
    SubKeepsLines(LegacyNotice, [], a, b);
  }

  // ---------------------------------------------------------------------
  // Step 2: replace the absolute BragDoc docs path.

  const LEGACY_DOCS_PATH := "/Users/ed/Code/brag-ai/.claude/docs"

  function PluginDocsPath(pluginPath: string): string {
    pluginPath + "/docs"
  }

  /** `str.replace` of every legacy docs path by the plugin's docs path. */
  function ReplaceLegacyPaths(t: string, pluginPath: string): (r: string)
    ensures |r| == |t| + Count(Literal(LEGACY_DOCS_PATH), t) * (|pluginPath| + 5 - |LEGACY_DOCS_PATH|)
    ensures !Contains(t, LEGACY_DOCS_PATH) ==> r == t
  {
    SubLiteralLength(LEGACY_DOCS_PATH, PluginDocsPath(pluginPath), t);
    SubWithoutAnchor(Literal(LEGACY_DOCS_PATH), PluginDocsPath(pluginPath), t);
    Sub(Literal(LEGACY_DOCS_PATH), PluginDocsPath(pluginPath), t)
  }

  /** A plugin path that cannot recreate the legacy path around a
      replacement: it has no capital `U` (the legacy path's second
      character), and no proper tail of the legacy path can run on into
      the plugin's docs path. */
  predicate KeepsLegacyPathOut(pluginPath: string) {
    'U' !in pluginPath && NoStraddle(LEGACY_DOCS_PATH, PluginDocsPath(pluginPath))
  }

  /** The characters that follow a `/` in the legacy path. */
  predicate FollowsSlashInLegacyPath(c: char) {
    c == 'U' || c == 'e' || c == 'C' || c == 'b' || c == '.' || c == 'd'
  }

  lemma LegacyPathSlashes()
    ensures forall j | 0 <= j < |LEGACY_DOCS_PATH| && LEGACY_DOCS_PATH[j] == '/' ::
      j + 1 < |LEGACY_DOCS_PATH| && FollowsSlashInLegacyPath(LEGACY_DOCS_PATH[j + 1])
  {
  }

  /** Two kinds of plugin path keep the legacy path out: relative ones
      whose first character does not occur in the legacy path (such as
      `~/...` or `plugins/...`), and absolute ones whose second character
      never follows a `/` in the legacy path (such as `/opt/plugin`). */
  lemma LegacyPathKeptOut(pluginPath: string)
    requires 'U' !in pluginPath && |pluginPath| > 0
    requires pluginPath[0] !in LEGACY_DOCS_PATH
      || (pluginPath[0] == '/' && |pluginPath| >= 2 && !FollowsSlashInLegacyPath(pluginPath[1]))
    ensures KeepsLegacyPathOut(pluginPath)
  {
    var x, repl := LEGACY_DOCS_PATH, PluginDocsPath(pluginPath);
    assert repl[0] == pluginPath[0];
    if pluginPath[0] !in x {
      NoStraddleFree(x, repl);
    } else {
      LegacyPathSlashes();
      assert repl[1] == pluginPath[1];
      forall j | 1 <= j < |x|
        ensures !StartsWith(x[j..], repl) && !StartsWith(repl, x[j..])
      {
        var w := x[j..];
        if x[j] == '/' {
          assert w[1] == x[j + 1] != repl[1];
          if |repl| <= |w| {
            assert w[..|repl|][1] == w[1];
          } else {
            assert repl[..|w|][1] == repl[1];
          }
        } else {
          assert w[0] == x[j] != repl[0];
          if |repl| <= |w| {
            assert w[..|repl|][0] == w[0];
          } else {
            assert repl[..|w|][0] == repl[0];
          }
        }
      }
    }
  }

  /** An absolute plugin path qualifies, for instance. */
  lemma AbsolutePluginPathKeepsLegacyPathOut()
    ensures KeepsLegacyPathOut("/opt/plugin")
  {
    var p := "/opt/plugin";
    assert Lacks(p, 'U') && p[0] == '/' && p[1] == 'o';
    LegacyPathKeptOut(p);
  }

  /** No legacy docs path can start inside the plugin's docs path: the
      legacy path's second character, `U`, is in neither part of it, and the
      one place left, its last character `s`, is not the leading `/`. */
  lemma LegacyPathNotInside(pluginPath: string)
    requires 'U' !in pluginPath
    ensures NoneStartsInside(LEGACY_DOCS_PATH, PluginDocsPath(pluginPath))
  {
    var x, repl := LEGACY_DOCS_PATH, PluginDocsPath(pluginPath);
    assert Lacks("/docs", 'U');
    forall q: nat, v: string | q < |repl|
      ensures !OccursAt(repl + v, x, q)
    {
      var w := repl + v;
      if q + 1 < |repl| {
        assert w[q + 1] == repl[q + 1] != x[1];
        if q + |x| <= |w| {
          assert w[q..q + |x|][1] == w[q + 1];
        }
      } else {
        assert w[q] == repl[q] == 's' != x[0];
        if q + |x| <= |w| {
          assert w[q..q + |x|][0] == w[q];
        }
      }
    }
  }

  /** After the replacement no legacy docs path is left. */
  lemma LegacyPathGone(t: string, pluginPath: string)
    requires KeepsLegacyPathOut(pluginPath)
    ensures !Contains(ReplaceLegacyPaths(t, pluginPath), LEGACY_DOCS_PATH)
  {
    LegacyPathNotInside(pluginPath);
    LiteralGone(LEGACY_DOCS_PATH, PluginDocsPath(pluginPath), t);
  }

  // ---------------------------------------------------------------------
  // Step 3: expand the standing-orders reference to name both layers.

  const STANDING_ORDERS_REF := "`.claude/docs/standing-orders.md`"

  /** What follows the reference in its expansion. */
  function ExpansionTail(pluginPath: string): string {
    " (project) OR " + "`" + pluginPath + "/docs/standing-orders.md" + "`" + " (plugin)"
  }

  /** The replacement of step 3. It begins with the reference it replaces. */
  function Expansion(pluginPath: string): string {
    STANDING_ORDERS_REF + ExpansionTail(pluginPath)
  }

  /** `re.sub` of every standing-orders reference by its expansion. The
      replacement goes through `re.sub`'s template processing, which leaves
      it as it is only when the plugin path holds no backslash. */
  function ExpandStandingOrdersRefs(t: string, pluginPath: string): (r: string)
    requires '\\' !in pluginPath
    ensures |r| == |t| + Count(Literal(STANDING_ORDERS_REF), t) * |ExpansionTail(pluginPath)|
    ensures !Contains(t, STANDING_ORDERS_REF) ==> r == t
  {
    SubLiteralLength(STANDING_ORDERS_REF, Expansion(pluginPath), t);
    SubWithoutAnchor(Literal(STANDING_ORDERS_REF), Expansion(pluginPath), t);
    Sub(Literal(STANDING_ORDERS_REF), Expansion(pluginPath), t)
  }

  /** Every expansion still holds the reference, so running the step on
      its own output expands again: the step is not idempotent. */
  lemma ExpansionNotIdempotent(t: string, pluginPath: string)
    requires '\\' !in pluginPath
    requires Contains(t, STANDING_ORDERS_REF)
    ensures ExpandStandingOrdersRefs(ExpandStandingOrdersRefs(t, pluginPath), pluginPath)
         != ExpandStandingOrdersRefs(t, pluginPath)
  {
    var ref, e := STANDING_ORDERS_REF, Expansion(pluginPath);
    var q: nat :| OccursAt(t, ref, q);
    OccurrenceCounted(ref, t, q);
    assert e[..|ref|] == ref;
    RepeatGrows(ref, e, t);
  }

  /** A plugin path that keeps the expansion from forming a new reference:
      no backtick, and no leading dot. */
  predicate KeepsExpansionQuoted(pluginPath: string) {
    '`' !in pluginPath && (|pluginPath| == 0 || pluginPath[0] != '.')
  }

  /** No reference starts inside an expansion's tail, whatever follows it:
      of the tail's two backticks, the first is followed by the plugin path
      (or by `/`) and the second by a space. */
  lemma NoReferenceInTail(pluginPath: string)
    requires KeepsExpansionQuoted(pluginPath)
    ensures NoneStartsInside(STANDING_ORDERS_REF, ExpansionTail(pluginPath))
  {
    var t1, t2a, t2b := " (project) OR ", "/docs/standing-orders.md", " (plugin)";
    var tail := ExpansionTail(pluginPath);
    assert Lacks(t1, '`') && Lacks(t2a, '`') && Lacks(t2b, '`');
    assert Lacks(pluginPath, '`');
    forall q | 0 <= q < |tail|
      ensures tail[q] != '`' || (q + 1 < |tail| && tail[q + 1] != '.')
    {
      BacktickPairs(t1, pluginPath, t2a, t2b, q);
    }
    NoneStartsInsideByPairs(STANDING_ORDERS_REF, tail);
  }

  /** In `a` + "`" + `p` + `b` + "`" + `c`, where only the two backticks
      shown are backticks and neither is followed by a dot, every backtick
      is followed by something other than a dot. */
  lemma BacktickPairs(a: string, p: string, b: string, c: string, q: nat)
    requires Lacks(a, '`') && Lacks(p, '`') && Lacks(b, '`') && Lacks(c, '`')
    requires |b| > 0 && b[0] != '.' && |c| > 0 && c[0] != '.'
    requires |p| == 0 || p[0] != '.'
    requires q < |a + "`" + p + b + "`" + c|
    ensures var w := a + "`" + p + b + "`" + c;
      w[q] != '`' || (q + 1 < |w| && w[q + 1] != '.')
  {
    var w := a + "`" + p + b + "`" + c;
    if q < |a| {
      assert w[q] == a[q];
    } else if q == |a| {
      assert w[q + 1] == if |p| > 0 then p[0] else b[0];
    } else if q < |a| + 1 + |p| {
      assert w[q] == p[q - |a| - 1];
    } else if q < |a| + 1 + |p| + |b| {
      assert w[q] == b[q - |a| - 1 - |p|];
    } else if q == |a| + 1 + |p| + |b| {
      assert w[q + 1] == c[0];
    } else {
      assert w[q] == c[q - |a| - 2 - |p| - |b|];
    }
  }

  /** The expansion preserves the number of references found by the scan. */
  lemma ExpansionPreservesCount(t: string, pluginPath: string)
    requires '\\' !in pluginPath && KeepsExpansionQuoted(pluginPath)
    ensures Count(Literal(STANDING_ORDERS_REF), ExpandStandingOrdersRefs(t, pluginPath))
         == Count(Literal(STANDING_ORDERS_REF), t)
  {
    var ref, e := STANDING_ORDERS_REF, Expansion(pluginPath);
    NoReferenceInTail(pluginPath);
    assert e[..|ref|] == ref && e[|ref|..] == ExpansionTail(pluginPath);
    CountKept(ref, e, t);
  }

  // ---------------------------------------------------------------------
  // Step 4: collapse the BragDoc technical-documentation list item.

  const TECH_LINE := TECH_ITEM + " your project's " + "technical documentation" + "\n"

  /** `re.sub` of each tech-docs item line by the generic line. */
  function CollapseTechDocs(t: string): (r: string)
    ensures NewlineCount(r) == NewlineCount(t)
    ensures !Contains(t, TECH_ITEM) ==> r == t
  {
    CollapsePreservesNewlines(t);
    SubWithoutAnchor(TechDocsItem, TECH_LINE, t);
    Sub(TechDocsItem, TECH_LINE, t)
  }

  /** Lines without the tech-docs item, up to a line break, are kept as
      they are. */
  lemma CollapseKeepsOtherLines(a: string, b: string)
    requires |a| > 0 && a[|a| - 1] == '\n' && !Contains(a, TECH_ITEM)
    ensures CollapseTechDocs(a + b) == a + CollapseTechDocs(b)
  {
    TechPiecesAreInline();
    SubKeepsLines(TechDocsItem, TECH_LINE, a, b);
  }

  /** A tech-docs match covers exactly one line: its only newline is its
      last character. */
  lemma TechMatchIsOneLine(t: string, n: nat)
    requires MatchLen(TechDocsItem, t) == Some(n)
    ensures Lacks(t[..n - 1], '\n') && t[n - 1] == '\n'
  {
    var m := MatchTech(t).value;
    TechSpanIsOneLine(t, m.gap, m.len);
  }

  /** A tech-docs span holds no newline before its last character. */
  lemma TechSpanIsOneLine(t: string, k: nat, n: nat)
    requires TechSpan(t, k, n)
    ensures Lacks(t[..n - 1], '\n') && t[n - 1] == '\n'
  {
    TechPiecesAreInline();
    OccursAtStart(t, TECH_ITEM);
    forall x | 0 <= x < n - 1
      ensures t[x] != '\n'
    {
      if x < |TECH_ITEM| {
        CharInOccurrence(t, TECH_ITEM, 0, '\n', x);
      } else if k <= x < k + |TECH_DIR| {
        CharInOccurrence(t, TECH_DIR, k, '\n', x);
      }
    }
  }

  /** The generic line is one line too. */
  lemma TechLineIsOneLine()
    ensures NewlineCount(TECH_LINE) == 1
  {
    var body := TECH_ITEM + " your project's " + "technical documentation";
    TechPiecesAreInline();
    assert Lacks(body, '\n') by {
      assert Lacks(" your project's ", '\n') && Lacks("technical documentation", '\n');
    }
    assert TECH_LINE[..|TECH_LINE| - 1] == body;
    NewlineCountLine(TECH_LINE);
  }

  /** So the text loses exactly one newline when its match is cut off. */
  lemma MatchedLineCount(t: string, n: nat)
    requires MatchLen(TechDocsItem, t) == Some(n)
    ensures NewlineCount(t) == 1 + NewlineCount(t[n..])
  {
    TechMatchIsOneLine(t, n);
    assert t[..n][..n - 1] == t[..n - 1];
    NewlineCountLine(t[..n]);
    NewlineCountSplit(t, n);
  }

  lemma {:induction false} CollapsePreservesNewlines(t: string)
    ensures NewlineCount(Sub(TechDocsItem, TECH_LINE, t)) == NewlineCount(t)
    decreases |t|
  {
    if t != [] {
      match MatchLen(TechDocsItem, t)
      case Some(n) =>
        CollapsePreservesNewlines(t[n..]);
        MatchedLineCount(t, n);
        TechLineIsOneLine();
        NewlineCountAppend(TECH_LINE, Sub(TechDocsItem, TECH_LINE, t[n..]));
      case None =>
        CollapsePreservesNewlines(t[1..]);
        assert t == [t[0]] + t[1..];
        NewlineCountAppend([t[0]], t[1..]);
        NewlineCountAppend([t[0]], Sub(TechDocsItem, TECH_LINE, t[1..]));
    }
  }

  // ---------------------------------------------------------------------
  // Step 5: insert the Documentation Lookup section after the intro.

  const FRONTMATTER_END := "---\n\n"
  const HEADING_MARK := "##"

  /** `re.search(r'---\n\n(.+?)(?=##)', t, re.DOTALL)` can match with the
      delimiter at `p` and the group ending at `i`: the group holds at
      least one character and is followed by `##`. */
  ghost predicate IntroMatch(t: string, p: nat, i: nat) {
    OccursAt(t, FRONTMATTER_END, p) && p + |FRONTMATTER_END| + 1 <= i && OccursAt(t, HEADING_MARK, i)
  }

  /** The match `re.search` reports: the leftmost start, and for it the
      shortest group. */
  ghost predicate IntroEnd(t: string, p: nat, i: nat) {
    IntroMatch(t, p, i)
    && forall p': nat, i': nat :: IntroMatch(t, p', i') ==> p < p' || (p == p' && i <= i')
  }

  /** The text with the section inserted at `i`, as line 66 of the script
      builds it. */
  function InsertAt(t: string, i: nat, section: string): (r: string)
    requires i <= |t|
    ensures |r| == |t| + |section| + 2
    ensures r[..i] == t[..i] && r[i + |section| + 2..] == t[i..]
    ensures r[i] == '\n' && r[i + 1..i + 1 + |section|] == section && r[i + 1 + |section|] == '\n'
  {
    t[..i] + "\n" + section + "\n" + t[i..]
  }

  /** Inserts the section before the first heading after the front matter,
      unless the document already has one. */
  function InsertDocLookup(t: string, pluginPath: string): (r: string)
    ensures Contains(t, DOC_HEADING) ==> r == t
    ensures !Contains(t, DOC_HEADING) ==>
      forall p: nat, i: nat :: IntroEnd(t, p, i) ==> i <= |t| && r == InsertAt(t, i, DocLookupSection(pluginPath))
    ensures (forall p: nat, i: nat :: !IntroMatch(t, p, i)) ==> r == t
  {
    ContainsFind(t, DOC_HEADING);
    IntroMissing(t);
    if FindFrom(t, DOC_HEADING, 0).Some? then t
    else match FindFrom(t, FRONTMATTER_END, 0)
      case None => t
      case Some(p) =>
        (match FindFrom(t, HEADING_MARK, p + |FRONTMATTER_END| + 1)
         case None => t
         case Some(i) =>
           IntroEndIsFound(t, p, i);
           InsertAt(t, i, DocLookupSection(pluginPath)))
  }

  /** When either search of line 62 fails, the pattern has no match. */
  lemma IntroMissing(t: string)
    ensures FindFrom(t, FRONTMATTER_END, 0).None? ==> forall p: nat, i: nat :: !IntroMatch(t, p, i)
    ensures (FindFrom(t, FRONTMATTER_END, 0).Some? &&
             FindFrom(t, HEADING_MARK, FindFrom(t, FRONTMATTER_END, 0).value + |FRONTMATTER_END| + 1).None?)
            ==> forall p: nat, i: nat :: !IntroMatch(t, p, i)
  {
  }

  /** The first delimiter and the first `##` after it are the match. */
  lemma IntroEndIsFound(t: string, p: nat, i: nat)
    requires FindFrom(t, FRONTMATTER_END, 0) == Some(p)
    requires FindFrom(t, HEADING_MARK, p + |FRONTMATTER_END| + 1) == Some(i)
    ensures IntroEnd(t, p, i)
    ensures forall p': nat, i': nat :: IntroEnd(t, p', i') ==> p' == p && i' == i
  {
    assert IntroEnd(t, p, i);
    forall p': nat, i': nat | IntroEnd(t, p', i')
      ensures p' == p && i' == i
    {
      assert IntroMatch(t, p', i') && IntroMatch(t, p, i);
    }
  }

  /** Splicing a section that carries the Documentation Lookup heading
      in front of the `##` at `i` keeps the text before `i` and the text
      from the `##` on, adds the heading, and grows the text by the section
      and two newlines. */
  lemma InsertAtKeepsSurroundings(t: string, i: nat, section: string)
    requires OccursAt(t, HEADING_MARK, i) && OccursAt(section, DOC_HEADING, 1)
    ensures var r := InsertAt(t, i, section);
      && |r| == |t| + |section| + 2
      && r[..i] == t[..i]
      && r[i + |section| + 2..] == t[i..]
      && OccursAt(r, HEADING_MARK, i + |section| + 2)
      && Contains(r, DOC_HEADING)
  {
    var r := InsertAt(t, i, section);
    var left := t[..i] + "\n";
    assert r == left + (section + ("\n" + t[i..]));
    OccursInLeft(section, "\n" + t[i..], DOC_HEADING, 1);
    OccursInRight(left, section + ("\n" + t[i..]), DOC_HEADING, 1);
    assert r[i + |section| + 2..] == t[i..];
    OccursInSuffix(t, HEADING_MARK, i, 0);
    OccursInRight(t[..i] + "\n" + section + "\n", t[i..], HEADING_MARK, 0);
  }

  /** The insertion either leaves the text alone or adds the section. */
  lemma InsertionOutcome(t: string, pluginPath: string)
    ensures var r := InsertDocLookup(t, pluginPath);
      r == t || (|r| == |t| + |DocLookupSection(pluginPath)| + 2 && Contains(r, DOC_HEADING))
  {
    if !Contains(t, DOC_HEADING) {
      ContainsFind(t, DOC_HEADING);
      match FindFrom(t, FRONTMATTER_END, 0)
      case None =>
      case Some(p) =>
        match FindFrom(t, HEADING_MARK, p + |FRONTMATTER_END| + 1)
        case None =>
        case Some(i) =>
          IntroEndIsFound(t, p, i);
          SectionShape(pluginPath);
          InsertAtKeepsSurroundings(t, i, DocLookupSection(pluginPath));
    }
  }

  // ---------------------------------------------------------------------
  // The whole rewrite.

  /** Steps 1 to 4. */
  function RewriteReferences(t: string, pluginPath: string): (r: string)
    requires '\\' !in pluginPath
    ensures (&& !Contains(t, LEGACY_HEADING) && !Contains(t, LEGACY_DOCS_PATH)
             && !Contains(t, STANDING_ORDERS_REF) && !Contains(t, TECH_ITEM)) ==> r == t
  {
    CollapseTechDocs(ExpandStandingOrdersRefs(ReplaceLegacyPaths(RemoveLegacySection(t), pluginPath), pluginPath))
  }

  /** `update_agent_file` without its file input and output. */
  function UpdateAgentDoc(t: string, pluginPath: string): (r: string)
    requires '\\' !in pluginPath
    ensures var mid := RewriteReferences(t, pluginPath);
      r == mid || (|r| == |mid| + |DocLookupSection(pluginPath)| + 2 && Contains(r, DOC_HEADING))
  {
    var mid := RewriteReferences(t, pluginPath);
    InsertionOutcome(mid, pluginPath);
    InsertDocLookup(mid, pluginPath)
  }

  /** A document that already has the section and none of the legacy
      patterns is left exactly as it is. */
  lemma UpdateIsNoOp(t: string, pluginPath: string)
    requires '\\' !in pluginPath
    requires !Contains(t, LEGACY_HEADING) && !Contains(t, LEGACY_DOCS_PATH)
    requires !Contains(t, STANDING_ORDERS_REF) && !Contains(t, TECH_ITEM)
    requires Contains(t, DOC_HEADING)
    ensures UpdateAgentDoc(t, pluginPath) == t
  {
  }

  /** The default plugin path meets the conditions of the lemmas above. */
  lemma DefaultPluginPathIsPlain()
    ensures '\\' !in DEFAULT_PLUGIN_PATH
    ensures KeepsLegacyPathOut(DEFAULT_PLUGIN_PATH)
    ensures KeepsExpansionQuoted(DEFAULT_PLUGIN_PATH)
    ensures '{' !in DEFAULT_PLUGIN_PATH
  {
    DefaultPathPiecesPlain();
    LacksJoin(PLUGINS_ROOT, PLUGIN_REPO, '\\');
    LacksJoin(PLUGINS_ROOT, PLUGIN_REPO, 'U');
    assert DEFAULT_PLUGIN_PATH[0] == '~' && Lacks(LEGACY_DOCS_PATH, '~');
    LegacyPathKeptOut(DEFAULT_PLUGIN_PATH);
    DefaultPathPiecesUnquoted();
    LacksJoin(PLUGINS_ROOT, PLUGIN_REPO, '`');
    LacksJoin(PLUGINS_ROOT, PLUGIN_REPO, '{');
  }

  lemma DefaultPathPiecesPlain()
    ensures Lacks(PLUGINS_ROOT, '\\') && Lacks(PLUGIN_REPO, '\\')
    ensures Lacks(PLUGINS_ROOT, 'U') && Lacks(PLUGIN_REPO, 'U')
  {
  }

  lemma DefaultPathPiecesUnquoted()
    ensures Lacks(PLUGINS_ROOT, '`') && Lacks(PLUGIN_REPO, '`')
    ensures Lacks(PLUGINS_ROOT, '{') && Lacks(PLUGIN_REPO, '{')
  {
  }
}
