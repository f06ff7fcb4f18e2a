# Anchor-based patch scripts, modelled in Dafny

Two small Python scripts in the repository patch text files by searching for
fixed snippets ("anchors") and splicing new text around them:

- `update-doc.py` adds the Phase 7.2 section to the token exchange document.
  It finds the first occurrence of an anchor (the end of the Phase 7.1 section
  followed by the "## Key Decisions" heading). If the anchor is missing, it
  stops with an error before writing. Otherwise it rebuilds the document with
  the section spliced into the anchor: between the anchor's `---` rule and the
  heading.
- `apply-fixes.py` patches the PostgreSQL delegation module with three
  replace-all substitutions, run one after the other on the same text:
  - fix #3 adds the `rolesClaim` field;
  - fix #1 adds the role extraction and two log entries;
  - fix #2 is a regular expression substitution, whose pattern only escapes a
    dot, that corrects `this.tokenExchangeService` to
    `this.tokenExchangeConfig`.

The model works on texts as `seq<char>`:

- `text.dfy` (module `Text`) holds the string operations the scripts rely on:
  - `FindFirst` is Python's `str.find`.
  - `ReplaceAll` is `str.replace` without a count: the leftmost match is
    replaced, and the search resumes after it, so matches never overlap.
  - `MatchCount` counts those matches.
  - `Split` and `Join` are `str.split` and `str.join`. Replace-all is the
    split joined by the replacement, and the split joined by the pattern
    gives the text back.
  - Lemmas about these operations:
    - the search finds the least occurrence;
    - replace-all keeps the text around matches in order;
    - its length grows by a fixed amount per match;
    - it is a no-op without a match;
    - no match is left when the replacement cannot re-form the pattern.
  - A marker lemma gives a way to show that a replacement cannot re-form
    its pattern. It applies when the replacement inserts text before a
    character that occurs exactly once in each text.
- `update_doc.dfy` (module `UpdateDoc`) models the splice:
  - `InsertAtAnchor` is the splice for any anchor made of a head and a
    heading.
  - `InsertPhase72Doc` applies it to the script's own anchor and section.
  - A missing anchor yields `Failure(InsertionPointNotFound)`, the model of
    the script's `exit(1)`.
- `apply_fixes.dfy` (module `ApplyFixes`) models the three fixes and their
  composition. It has two forms:
  - the function `ApplyFixes`;
  - the method `PatchPostgresModule`, which reassigns one local variable per
    fix, as the script reassigns `content`.

  The regular expression of fix #2 is modelled by a small language of
  literal patterns: ordinary characters and backslash-escaped
  metacharacters. The model proves that the script's pattern is the escaped
  form of its target, so the substitution is a literal replace-all.
- `patch_texts.dfy` (module `PatchTexts`) holds the snippets of
  `apply-fixes.py` and the proofs that no fix can re-form its own snippet.
- `wrappers.dfy` (module `Wrappers`) holds `Result`.

The snippets the scripts search for and insert are constants of the model,
character for character. The multi-line ones are written as concatenations
of their lines. Long lines are split further into pieces of about 30
characters, which the verifier can compare one character at a time:

- `Fix3Target` is the required-claim lines followed by the token cache
  comment.
- `Fix3Replacement` is the same text with the roles claim lines between
  them.
- The two pieces of fix #1 are built the same way.

This makes "the replacement is the target with lines inserted" a fact the
verifier can use.

Two behaviours of the scripts are easy to miss. The model states both:

- **Missing snippets are not reported.** In `apply-fixes.py`, a fix whose
  snippet is missing changes nothing. The script still writes the file and
  prints that all three fixes were applied (apply-fixes.py:12-47;
  `FixesWithoutTargetsAreNoOp`).
- **The section goes inside the anchor.** `update-doc.py` puts the new
  section between the anchor's `---` rule and the "## Key Decisions"
  heading, not after the whole anchor (update-doc.py:65;
  `InsertionIsPureInsertion`).

## Model

| member | source | states |
|---|---|---|
| Text.FindFromIsLeast | update-doc.py:58 | the search from `from` reports the least occurrence at or after `from`, and -1 only when there is none |
| Text.FindFirstIsLeast | update-doc.py:58 | `find` returns -1 exactly when the anchor does not occur; otherwise the anchor occurs at the returned index and at no smaller index |
| Text.FindFirst | update-doc.py:58 | `find` returns -1 or an index at which the whole anchor fits in the text (`FindFirstIsLeast` says which index) |
| Text.FirstOccurrenceIsFound | update-doc.py:58 | an occurrence with no earlier occurrence is the index `find` returns |
| Text.MatchCountZeroIffAbsent | apply-fixes.py:12-15 | a replace-all replaces at least one occurrence exactly when the snippet occurs in the text |
| Text.ReplaceAllWithoutMatch | apply-fixes.py:12-15 | a replace-all whose snippet does not occur leaves the text unchanged |
| Text.ReplaceAllLength | apply-fixes.py:12-15 | the output length is the input length plus, per replaced occurrence, the replacement length minus the snippet length |
| Text.ReplaceAllGrowth | apply-fixes.py:12-15 | a replacement `growth` characters longer than its snippet lengthens the text by `growth` per replaced occurrence |
| Text.ReplaceAllInsertsAtFirstMatch | apply-fixes.py:12-15 | when the replacement is the snippet with text inserted at one point, the leftmost match becomes the matched text with that insertion and nothing else changes before the rest |
| Text.ReplaceAllInsertsTwiceAtFirstMatch | apply-fixes.py:18-35 | the same for a replacement that inserts text at two points of the snippet |
| Text.ReplaceAllJoinsSplit | apply-fixes.py:12-15 | `s.replace(pat, rep)` equals `rep.join(s.split(pat))` |
| Text.SplitJoinRoundTrip | apply-fixes.py:12-15 | joining the pieces of `s.split(pat)` with `pat` gives back `s`, so replace-all changes only the separators |
| Text.SplitPieces | apply-fixes.py:12-15 | the split has one piece more than the number of replaced occurrences; no piece contains the snippet; and each piece but the last is followed by the leftmost occurrence after it |
| Text.ReplaceAllRemovesEveryOccurrence | apply-fixes.py:38-42 | when the replacement can neither contain nor, together with neighbouring text, re-form the pattern, no occurrence survives a replace-all |
| Text.ReplaceAllIdempotent | apply-fixes.py:38-42 | under the same condition, a second replace-all changes nothing |
| Text.MarkedInsertionCannotReform | apply-fixes.py:12-35 | a replacement that inserts text before a marker character, found exactly once in each text at the same distance from the end, cannot re-form its pattern, given two conditions: the end after the marker starts neither text, and the first characters rule out the one remaining shift |
| UpdateDoc.InsertAtAnchor | update-doc.py:58-65 | the splice fails exactly when the anchor does not occur in the document |
| UpdateDoc.InsertPhase72Doc | update-doc.py:58-65 | the script stops with an error, before writing, exactly when its anchor does not occur |
| UpdateDoc.AnchorIsHeadThenHeading | update-doc.py:58-65 | the anchor searched for is the head written back before the section followed by the heading written back after it |
| UpdateDoc.InsertionIsPureInsertion | update-doc.py:65 | with the anchor first at `i`, the output is the input with the section inserted at offset `i + len(head)` and nothing else changed |
| UpdateDoc.InsertionLayout | update-doc.py:65 | the output keeps the text before the anchor, has the head, the section and the heading in that order, then the text after the anchor, and is longer by exactly the section's length |
| UpdateDoc.LaterAnchorsShift | update-doc.py:58-65 | only the first anchor receives the section: any later occurrence of the anchor that does not overlap the first is still in the output, shifted by the section's length |
| UpdateDoc.Phase72DocIsPureInsertion | update-doc.py:6-65 | the script's output is its input with the Phase 7.2 section inserted right after the first anchor's `---` rule, and nothing else changed |
| PatchTexts.Fix3CannotReform | apply-fixes.py:12-15 | fix #3's replacement can neither contain its snippet nor, together with neighbouring text, re-form it |
| PatchTexts.Fix1CannotReform | apply-fixes.py:18-35 | fix #1's replacement can neither contain its snippet nor, together with neighbouring text, re-form it |
| PatchTexts.Fix2CannotReform | apply-fixes.py:38-42 | fix #2's replacement cannot contain the target, and an occurrence of the target cannot start inside an inserted replacement or run into one |
| ApplyFixes.EscapedLiteralRoundTrip | apply-fixes.py:38-42 | escaping a text gives a literal pattern that matches exactly that text |
| ApplyFixes.Fix2PatternIsLiteral | apply-fixes.py:38-42 | fix #2's pattern is its target with the dot escaped, so it matches exactly the literal `tokenExchangeUsed: !!this.tokenExchangeService` |
| ApplyFixes.SubstituteEscapedText | apply-fixes.py:38-42 | `re.sub` on the escaped form of a text is `str.replace` of that text |
| ApplyFixes.Fix3 | apply-fixes.py:12-15 | after fix #3, no occurrence of its snippet is left |
| ApplyFixes.Fix1 | apply-fixes.py:18-35 | after fix #1, no occurrence of its snippet is left |
| ApplyFixes.Fix2 | apply-fixes.py:38-42 | after fix #2, no occurrence of `tokenExchangeUsed: !!this.tokenExchangeService` is left |
| ApplyFixes.Fix2IsLiteralReplace | apply-fixes.py:38-42 | the `re.sub` of fix #2 is a literal replace-all of the target by the replacement |
| ApplyFixes.Fix2Idempotent | apply-fixes.py:38-42 | running fix #2 a second time changes nothing |
| ApplyFixes.Fix2Length | apply-fixes.py:38-42 | fix #2 shortens the text by one character per replaced occurrence |
| ApplyFixes.Fix3Growth | apply-fixes.py:12-15 | fix #3 lengthens the text by the roles claim lines once per replaced (leftmost, non-overlapping) occurrence of its snippet |
| ApplyFixes.Fix3InsertsAfterRequiredClaim | apply-fixes.py:12-15 | at its first occurrence, fix #3 inserts the roles claim lines right after the required claim lines, keeps the token cache comment after them, and goes on patching the rest |
| ApplyFixes.Fix1Growth | apply-fixes.py:18-35 | fix #1 lengthens the text by the role extraction and the two log entries once per replaced (leftmost, non-overlapping) occurrence of its snippet |
| ApplyFixes.Fix1InsertsRoleExtractionAndLog | apply-fixes.py:18-35 | at its first occurrence, fix #1 inserts the role extraction right after the username assignment and the log entries right after the username log entry, keeping everything else in order |
| ApplyFixes.ApplyFixes | apply-fixes.py:11-42 | the patched text, fix #3 then #1 then #2 each on the previous output, holds no occurrence of fix #2's target |
| ApplyFixes.PatchPostgresModule | apply-fixes.py:11-42 | the script body, which reassigns `content` once per fix, computes the composition in that order, and no occurrence of fix #2's target is left |
| ApplyFixes.FixesWithoutTargetsAreNoOp | apply-fixes.py:11-47 | with none of the three snippets present, the script writes back the decoded text it read unchanged, and still reports success |

## Left out

- File reading and writing, UTF-8 decoding and newline translation (update-doc.py:54-55, 67-68; apply-fixes.py:8-9, 44-45): the model maps the decoded text read to the text written, or to an error. Python's text mode turns `\r\n` and `\r` into `\n` on reading and `\n` into the platform's line separator on writing. So "unchanged" holds for the decoded text, not for the bytes of the file.
- Console output and the process exit (update-doc.py:61-62, 70; apply-fixes.py:47-50): `exit(1)` is the `Failure(InsertionPointNotFound)` result, and the messages are dropped.
- The file paths (update-doc.py:4; apply-fixes.py:6) are configuration.
- A general regular expression engine: only patterns made of ordinary characters and backslash-escaped metacharacters are modelled, which covers the one pattern the script uses.
- Template processing in the replacement string of `re.sub` (backslash escapes and group references) is not modelled, because the replacement of fix #2 contains no backslash and is therefore taken literally.
- Text.ReplaceAll: `str.replace` with an empty snippet, which inserts the replacement at the start, between every two characters and at the end, is excluded by the precondition `pat != []`, because all three snippets are non-empty.
- ApplyFixes.ApplyFixes: each fix leaves no occurrence of its own snippet, but the final text is only shown to lack fix #2's target. That fixes #1 and #2 do not re-create the snippets of the fixes before them is not proved.
- UpdateDoc.LaterAnchorsShift: "exactly one copy of the section is inserted" is stated as "every later anchor is still present, shifted by the section's length". The model does not count the copies of the section in the output.
- UpdateDoc.InsertionLayout: the layout lemma is stated for any anchor, head, section and heading. For the script's own constants, the model proves the exact output (`Phase72DocIsPureInsertion`) and leaves the layout to this generic lemma.
- The meaning of the patched TypeScript and of the Phase 7.2 prose: they are constant texts.
