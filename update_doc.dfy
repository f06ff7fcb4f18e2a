/**
 * The script that adds the Phase 7.2 section to the token exchange document
 * (update-doc.py): find the first occurrence of a fixed anchor, stop with an
 * error when there is none, and otherwise splice the section into the anchor,
 * between its "---" rule and the "## Key Decisions" heading.
 */
module UpdateDoc {
  import opened Wrappers
  import opened Text

  /** The text the script searches for: the end of the Phase 7.1 section and
      the heading that follows it. */
  const InsertionAnchor: string :=
    "**Build Verification:** ✅ All builds successful after fix\n\n---\n\n## Key Decisions"

  /** The part of the anchor the script writes back before the new section. */
  const AnchorHead: string := "**Build Verification:** ✅ All builds successful after fix\n\n---\n"

  /** The part of the anchor the script writes back after the new section. */
  const KeyDecisionsHeading: string := "\n## Key Decisions"

  /** The Phase 7.2 section, inserted as it stands. */
  const Phase72Doc: string :=
    "\n" +
    "### Phase 7.2: Fix Undefined teRoles Variable - COMPLETED (2025-01-06)\n" +
    "\n" +
    "**Problem:** Runtime error `ReferenceError: teRoles is not defined` in PostgreSQL module\n" +
    "\n" +
    "**Root Cause:** After token exchange completed and `legacy_name` was extracted from TE-JWT (line 369), the code forgot to extract the `roles` claim from the same TE-JWT before using it on lines 419-420.\n" +
    "\n" +
    "**Solution:** Extract roles from TE-JWT after extracting legacy username\n" +
    "\n" +
    "**Changes Made:**\n" +
    "- [x] Added `rolesClaim?: string` field to `TokenExchangeConfig` interface (line 50-51)\n" +
    "- [x] Added role extraction logic after line 369 (5 lines of code):\n" +
    "  ```typescript\n" +
    "  // Extract roles from TE-JWT (may be in 'roles', 'user_roles', or other claim)\n" +
    "  const rolesClaimPath = this.tokenExchangeConfig.rolesClaim || 'roles';\n" +
    "  const teRoles = (Array.isArray(teClaims?.[rolesClaimPath])\n" +
    "    ? teClaims[rolesClaimPath]\n" +
    "    : []) as string[];\n" +
    "  ```\n" +
    "- [x] Updated console.log to show extracted roles (lines 374-378)\n" +
    "- [x] Fixed incorrect `this.tokenExchangeService` references → `this.tokenExchangeConfig` (lines 456, 473)\n" +
    "\n" +
    "**Files Changed:**\n" +
    "- `packages/sql-delegation/src/postgresql-module.ts` - 3 fixes applied (~15 lines changed)\n" +
    "\n" +
    "**Design Alignment:**\n" +
    "This fix implements the missing role extraction specified in the design document (Unified OAuth & Token Exchange Implementation plan.md lines 523-527):\n" +
    "\n" +
    "```typescript\n" +
    "// CRITICAL: Decode TE-JWT for legacy authorization\n" +
    "const delegationClaims = decodeJWT(delegationToken);\n" +
    "\n" +
    "// Extract TE-JWT authorization (NOT requestor JWT!)\n" +
    "const legacyUsername = delegationClaims.legacy_name;      // ✅ Already implemented\n" +
    "const legacyRoles = delegationClaims.roles || [];         // ✅ FIXED in Phase 7.2\n" +
    "const legacyPermissions = delegationClaims.permissions || []; // Can be added later\n" +
    "```\n" +
    "\n" +
    "**Build Verification:** ✅ All builds successful after fix\n" +
    "- Core: ✅ (61ms)\n" +
    "- @mcp-oauth/sql-delegation: ✅ (11ms)\n" +
    "\n" +
    "**Security Impact:** ✅ POSITIVE - TE-JWT roles now properly extracted and used for SQL authorization\n" +
    "\n" +
    "---\n" +
    "\n"

  /** Why the script stopped without writing. */
  datatype UpdateError = InsertionPointNotFound

  /** The script's splice for an anchor made of `head` then `heading`: the text
      before the first anchor, then `head`, `section` and `heading`, then the
      text after that anchor; an error when the anchor does not occur. */
  function InsertAtAnchor(content: string, anchor: string, head: string, section: string,
                          heading: string): (r: Result<string, UpdateError>)
    ensures r.Failure? <==> !Contains(content, anchor)
  {
    FindFirstIsLeast(content, anchor);
    var insertionPoint := FindFirst(content, anchor);
    if insertionPoint == -1 then Failure(InsertionPointNotFound)
    else
      Success(content[..insertionPoint] + head + section + heading
              + content[insertionPoint + |anchor|..])
  }

  /** The new document text, or the error the script stops with (before
      writing anything) when the anchor is missing. */
  function InsertPhase72Doc(content: string): (r: Result<string, UpdateError>)
    ensures r.Failure? <==> !Contains(content, InsertionAnchor)
  {
    InsertAtAnchor(content, InsertionAnchor, AnchorHead, Phase72Doc, KeyDecisionsHeading)
  }

  /** The anchor is the head the script writes back followed by the heading. */
  lemma AnchorIsHeadThenHeading()
    ensures InsertionAnchor == AnchorHead + KeyDecisionsHeading
  {
  }

  /** With the anchor first occurring at `i`, the new text is the old text with
      the section inserted right after the anchor's head, at offset
      `i + |head|`, and nothing else changed. */
  lemma InsertionIsPureInsertion(content: string, anchor: string, head: string, section: string,
                                 heading: string, i: int)
    requires anchor == head + heading
    requires OccursAt(content, anchor, i)
    requires forall j :: 0 <= j < i ==> !OccursAt(content, anchor, j)
    ensures InsertAtAnchor(content, anchor, head, section, heading)
      == Success(content[..i + |head|] + section + content[i + |head|..])
  {
    FirstOccurrenceIsFound(content, anchor, i);
    TwoPartOccurrence(content, head, heading, i);
    var k, e := i + |head|, i + |anchor|;
    var pre, post := content[..i], content[e..];
    assert content[k..] == content[k..e] + post;
    SectionAfterHead(pre, head, section, heading, post);
  }

  /** Concatenation regrouped around the inserted section. */
  lemma SectionAfterHead(pre: string, head: string, section: string, heading: string, post: string)
    ensures pre + head + section + heading + post == (pre + head) + section + (heading + post)
  {
  }

  /** Where everything lands when the anchor first occurs at `i`: the text
      before the anchor is kept, the section is framed by the anchor's head and
      heading, the text after the anchor follows unchanged, and the document
      grows by exactly the length of the section. */
  lemma InsertionLayout(content: string, anchor: string, head: string, section: string,
                        heading: string, i: int)
    requires anchor == head + heading
    requires OccursAt(content, anchor, i)
    requires forall j :: 0 <= j < i ==> !OccursAt(content, anchor, j)
    ensures InsertAtAnchor(content, anchor, head, section, heading).Success?
    ensures var out := InsertAtAnchor(content, anchor, head, section, heading).value;
      && |out| == |content| + |section|
      && out[..i] == content[..i]
      && out[i..i + |head|] == head
      && out[i + |head|..i + |head| + |section|] == section
      && out[i + |head| + |section|..i + |anchor| + |section|] == heading
      && out[i + |anchor| + |section|..] == content[i + |anchor|..]
  {
    FirstOccurrenceIsFound(content, anchor, i);
    var out := InsertAtAnchor(content, anchor, head, section, heading).value;
    var tail := content[i + |anchor|..];
    assert out == content[..i] + head + section + heading + tail;
  }

  /** Only the first anchor receives the section: an occurrence of the anchor
      after the first one is still there, shifted by the section's length. */
  lemma LaterAnchorsShift(content: string, anchor: string, head: string, section: string,
                          heading: string, i: int, j: int)
    requires anchor == head + heading
    requires OccursAt(content, anchor, i)
    requires forall k :: 0 <= k < i ==> !OccursAt(content, anchor, k)
    requires i + |anchor| <= j && OccursAt(content, anchor, j)
    ensures OccursAt(InsertAtAnchor(content, anchor, head, section, heading).value, anchor, j + |section|)
  {
    InsertionLayout(content, anchor, head, section, heading, i);
    var out := InsertAtAnchor(content, anchor, head, section, heading).value;
    var e, d := i + |anchor|, j - (i + |anchor|);
    var shifted, kept := out[e + |section|..], content[e..];
    assert shifted == kept;
    assert out[j + |section|..j + |section| + |anchor|] == shifted[d..d + |anchor|];
    assert content[j..j + |anchor|] == kept[d..d + |anchor|];
  }

  /** The script itself: the Phase 7.2 section goes right after the "---"
      rule of the first anchor, and nothing else in the document changes. */
  lemma Phase72DocIsPureInsertion(content: string, i: int)
    requires OccursAt(content, InsertionAnchor, i)
    requires forall j :: 0 <= j < i ==> !OccursAt(content, InsertionAnchor, j)
    ensures InsertPhase72Doc(content)
      == Success(content[..i + |AnchorHead|] + Phase72Doc + content[i + |AnchorHead|..])
  {
    AnchorIsHeadThenHeading();
    InsertionIsPureInsertion(content, InsertionAnchor, AnchorHead, Phase72Doc, KeyDecisionsHeading, i);
  }
}
