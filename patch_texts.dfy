/**
 * The fixed texts the PostgreSQL module patch script (apply-fixes.py) looks
 * for and puts in their place, character for character, and the facts about
 * them that show a replacement cannot re-form its own snippet.
 *
 * Multi-line snippets are written as concatenations of their lines, and long
 * lines as concatenations of pieces of at most about 30 characters, so the
 * verifier can compare them character by character.
 */
module PatchTexts {
  import opened Text

  // Fix #3: add a `rolesClaim` field to the TokenExchangeConfig interface.

  /** The lines before the insertion point of fix #3. */
  const RequiredClaimLines: string :=
    "  /** Required claim in TE-JWT" + " (e.g., legacy_name) */\n" +
    "  requiredClaim?: string;\n" +
    "\n"

  /** The lines fix #3 inserts. */
  const RolesClaimLines: string :=
    "  /** Roles claim path in" + " TE-JWT (default: 'roles') */\n" +
    "  rolesClaim?: string;\n" +
    "\n"

  /** The line after the insertion point of fix #3. */
  const TokenCacheLine: string := "  /** Token cache configuration */"

  /** The text fix #3 looks for: the `requiredClaim` field followed by the
      token cache comment. */
  const Fix3Target: string := RequiredClaimLines + TokenCacheLine

  /** What fix #3 puts in its place. */
  const Fix3Replacement: string := RequiredClaimLines + RolesClaimLines + TokenCacheLine

  // Fix #1: extract the roles claim after the legacy username is set, and log it.

  /** The lines before the first insertion point of fix #1. */
  const UsernameLines: string :=
    "        // Use claim value as" + " legacy username\n" +
    "        effectiveLegacyUsername" + " = claimValue as string;\n" +
    "\n"

  /** The role extraction lines fix #1 inserts after `UsernameLines`. */
  const RoleExtractionLines: string :=
    "        // Extract roles from" + " TE-JWT (may be in" + " 'roles', 'user_roles'," + " or other claim)\n" +
    "        const rolesClaimPath =" + " this.tokenExchangeConfig" + ".rolesClaim || 'roles';\n" +
    "        const teRoles =" + " (Array.isArray(teClaims?." + "[rolesClaimPath])\n" +
    "          ?" + " teClaims[rolesClaimPath]\n" +
    "          : []) as string[];\n" +
    "\n"

  /** The opening of the success log call, up to its username entry. */
  const LogOpenLines: string :=
    "        console.log(" + "'[PostgreSQLModule] Token" + " exchange successful:', {\n" +
    "          legacyUsername:" + " effectiveLegacyUsername,\n"

  /** The log entries fix #1 inserts after `LogOpenLines`. */
  const RoleLogLines: string :=
    "          roles: teRoles,\n" +
    "          rolesClaimPath,\n"

  /** The end of the success log call. */
  const LogCloseLines: string :=
    "          idpName:" + " this.tokenExchangeConfig" + ".idpName,\n" +
    "        });"

  /** The text fix #1 looks for: the username assignment and the success log. */
  const Fix1Target: string := UsernameLines + LogOpenLines + LogCloseLines

  /** What fix #1 puts in its place. */
  const Fix1Replacement: string :=
    UsernameLines + RoleExtractionLines + LogOpenLines + RoleLogLines + LogCloseLines

  // Fix #2: point `tokenExchangeUsed` at the config instead of the service.

  /** The regular expression fix #2 substitutes, as written (a raw string). */
  const Fix2Pattern: string := "tokenExchangeUsed: !!this\\.tokenExchangeService"

  /** The text `Fix2Pattern` matches. */
  const Fix2Target: string := "tokenExchangeUsed: !!this.tokenExchangeService"

  const Fix2Replacement: string := "tokenExchangeUsed: !!this.tokenExchangeConfig"

  // Fix #2 cannot re-form its snippet: the target ends in "Service", the
  // replacement in "Config", and both start with the only `t` that begins a
  // word of either.

  /** Fix #2's target and replacement share everything up to the last word:
      the target ends in "Service" ... */
  lemma Fix2TargetShape()
    ensures Fix2Target == "tokenExchangeUsed: !!this.tokenExchange" + "Service"
  {
  }

  /** ... and the replacement in "Config". */
  lemma Fix2ReplacementShape()
    ensures Fix2Replacement == "tokenExchangeUsed: !!this.tokenExchange" + "Config"
  {
  }

  /** The shared part starts with `t`. */
  lemma Fix2SharedStart()
    ensures "tokenExchangeUsed: !!this.tokenExchange"[0] == 't'
  {
  }

  /** The characters that keep fix #2 from re-forming its target: `S` only in
      the target's last word, `C` only in the replacement's, and no `t` in
      either after its first letter. */
  lemma Fix2NoS()
    ensures 'S' !in "tokenExchangeUsed: !!this.tokenExchange" && 'S' !in "Config"
  {
  }

  lemma Fix2NoC()
    ensures 'C' !in "tokenExchangeUsed: !!this.tokenExchange"
  {
  }

  lemma Fix2NoLateT()
    ensures 't' !in "ervice" && 't' !in "onfig"
  {
  }

  /** The replacement is one character shorter than the target, so it
      cannot contain it. */
  lemma Fix2ReplacementLacksTarget()
    ensures !Contains(Fix2Replacement, Fix2Target)
  {
    Fix2TargetShape();
    Fix2ReplacementShape();
    assert |Fix2Target| == 46 && |Fix2Replacement| == 45;
  }

  /** No end of the replacement is a beginning of the target: an occurrence
      cannot start inside an inserted replacement. */
  lemma Fix2NoOverhang()
    ensures forall m :: 1 <= m < |Fix2Target| && m <= |Fix2Replacement|
                        ==> Fix2Replacement[|Fix2Replacement| - m..] != Fix2Target[..m]
  {
    var shared := "tokenExchangeUsed: !!this.tokenExchange";
    var o, n := Fix2Target, Fix2Replacement;
    Fix2TargetShape();
    Fix2ReplacementShape();
    Fix2SharedStart();
    Fix2NoS();
    Fix2NoC();
    Fix2NoLateT();
    assert |shared| == 39 && |o| == 46 && |n| == 45;
    assert o[0] == 't' && o[39] == 'S' && n[39] == 'C';
    assert n[40..] == "onfig" && o[..39] == shared;
    forall m | 1 <= m < |o| && m <= |n| ensures n[|n| - m..] != o[..m] {
      if m >= 40 {
        assert o[..m][39] == 'S' && n[|n| - m..][39] in n;
      } else if m >= 6 {
        assert n[|n| - m..][m - 6] == 'C' && o[..m][m - 6] == shared[m - 6];
      } else {
        assert o[..m][0] == 't' && n[|n| - m..][0] == n[40..][5 - m];
      }
    }
  }

  /** No proper end of the target agrees with the beginning of the
      replacement: an occurrence cannot start in kept text and run on into an
      inserted replacement. */
  lemma Fix2NoRunOn()
    ensures forall k :: 1 <= k < |Fix2Target| ==> !PrefixCompatible(Fix2Target[k..], Fix2Replacement)
  {
    var o, n := Fix2Target, Fix2Replacement;
    Fix2TargetShape();
    Fix2ReplacementShape();
    Fix2SharedStart();
    Fix2NoS();
    Fix2NoLateT();
    assert |o| == 46 && |n| == 45;
    assert n[0] == 't' && o[39] == 'S' && o[40..] == "ervice";
    forall k | 1 <= k < |o| ensures !PrefixCompatible(o[k..], n) {
      if k <= 39 {
        assert o[k..][39 - k] == 'S' && n[39 - k] in n;
      } else {
        assert o[k..][0] == o[40..][k - 40] && n[0] == 't';
      }
    }
  }

  /** Replacing `Fix2Target` by `Fix2Replacement` can never re-form the
      target. */
  lemma Fix2CannotReform()
    ensures CannotReform(Fix2Target, Fix2Replacement)
  {
    Fix2ReplacementLacksTarget();
    Fix2NoOverhang();
    Fix2NoRunOn();
  }

  // Fix #3 cannot re-form its snippet: the `k` of "Token" occurs once in each
  // text, with the roles claim lines inserted before it.

  lemma NoKInRequiredClaimComment()
    ensures 'k' !in "  /** Required claim in TE-JWT" && 'k' !in " (e.g., legacy_name) */\n"
  {
  }

  lemma NoKInRequiredClaimField()
    ensures 'k' !in "  requiredClaim?: string;\n" && 'k' !in "  /** To"
  {
  }

  lemma NoKInRolesClaimComment()
    ensures 'k' !in "  /** Roles claim path in" && 'k' !in " TE-JWT (default: 'roles') */\n"
  {
  }

  lemma NoKInRolesClaimField()
    ensures 'k' !in "  rolesClaim?: string;\n"
  {
  }

  /** The token cache comment around its `k`. */
  lemma TokenCacheMarker()
    ensures TokenCacheLine == "  /** To" + "k" + "en cache configuration */"
  {
  }

  /** No end of the text after the `k` is a beginning of fix #3's texts: the
      only `/` of that text is its last character, and the texts start with
      two spaces and a `/`. */
  lemma TokenCacheEndIsNoStart()
    ensures forall n :: 1 <= n <= 25 ==>
      "en cache configuration */"[25 - n..] != "  /** Required claim in TE-JWT"[..n]
  {
    var tail, head := "en cache configuration */", "  /** Required claim in TE-JWT";
    var noSlash := "en cache configuration *";
    assert tail == noSlash + "/" && '/' !in noSlash;
    assert head[0] == ' ' && head[1] == ' ' && head[2] == '/' && tail[23] == '*';
    forall n | 1 <= n <= 25 ensures tail[25 - n..] != head[..n] {
      if n >= 4 {
        assert head[..n][2] == '/' && tail[25 - n..][2] == noSlash[27 - n];
      } else {
        assert head[..n][n - 1] == ' ' || head[..n][0] == ' ';
        assert tail[25 - n..][0] == tail[25 - n];
        assert n == 3 ==> tail[25 - n..][1] == '*';
      }
    }
  }

  /** Replacing `Fix3Target` by `Fix3Replacement` can never re-form the
      target. */
  lemma Fix3CannotReform()
    ensures CannotReform(Fix3Target, Fix3Replacement)
  {
    var lead, tail := "  /** To", "en cache configuration */";
    var head := "  /** Required claim in TE-JWT";
    var before := RequiredClaimLines + lead;
    var repBefore := RequiredClaimLines + RolesClaimLines + lead;
    TokenCacheMarker();
    NoKInRequiredClaimComment();
    NoKInRequiredClaimField();
    NoKInRolesClaimComment();
    NoKInRolesClaimField();
    MarkerAfterPrefix(RequiredClaimLines, TokenCacheLine, lead, 'k', tail);
    MarkerAfterPrefix(RequiredClaimLines + RolesClaimLines, TokenCacheLine, lead, 'k', tail);
    assert |RequiredClaimLines| == 81 && |RolesClaimLines| == 79;
    assert Fix3Target[0] == ' ' && Fix3Replacement[79] == '\n';
    assert head <= Fix3Target && head <= Fix3Replacement;
    TokenCacheEndIsNoStart();
    MarkedInsertionCannotReform(Fix3Target, Fix3Replacement, before, repBefore, 'k', tail, head);
  }

  // Fix #1 cannot re-form its snippet: the `}` closing the success log occurs
  // once in each text, with the role extraction and log entries inserted
  // before it.

  lemma NoBraceInUsernameComment()
    ensures '}' !in "        // Use claim value as" && '}' !in " legacy username\n"
  {
  }

  lemma NoBraceInUsernameAssignment()
    ensures '}' !in "        effectiveLegacyUsername" && '}' !in " = claimValue as string;\n"
  {
  }

  lemma NoBraceInRoleComment()
    ensures '}' !in "        // Extract roles from" && '}' !in " TE-JWT (may be in"
  {
  }

  lemma NoBraceInRoleCommentEnd()
    ensures '}' !in " 'roles', 'user_roles'," && '}' !in " or other claim)\n"
  {
  }

  lemma NoBraceInRolesClaimPath()
    ensures '}' !in "        const rolesClaimPath =" && '}' !in " this.tokenExchangeConfig"
  {
  }

  lemma NoBraceInRolesClaimDefault()
    ensures '}' !in ".rolesClaim || 'roles';\n"
  {
  }

  lemma NoBraceInRolesValue()
    ensures '}' !in "        const teRoles =" && '}' !in " (Array.isArray(teClaims?."
  {
  }

  lemma NoBraceInRolesAlternatives()
    ensures '}' !in "[rolesClaimPath])\n" && '}' !in "          ?"
    ensures '}' !in " teClaims[rolesClaimPath]\n"
  {
  }

  lemma NoBraceInRolesFallback()
    ensures '}' !in "          : []) as string[];\n"
  {
  }

  lemma NoBraceInLogOpen()
    ensures '}' !in "        console.log(" && '}' !in "'[PostgreSQLModule] Token"
  {
  }

  lemma NoBraceInLogOpenEnd()
    ensures '}' !in " exchange successful:', {\n"
  {
  }

  lemma NoBraceInUsernameEntry()
    ensures '}' !in "          legacyUsername:" && '}' !in " effectiveLegacyUsername,\n"
  {
  }

  lemma NoBraceInRoleEntries()
    ensures '}' !in "          roles: teRoles,\n" && '}' !in "          rolesClaimPath,\n"
  {
  }

  lemma NoBraceInIdpNameEntry()
    ensures '}' !in "          idpName:" && '}' !in " this.tokenExchangeConfig"
    ensures '}' !in ".idpName,\n" && '}' !in "        "
  {
  }

  /** The end of the success log around its `}`. */
  lemma LogCloseMarker()
    ensures LogCloseLines
      == "          idpName:" + " this.tokenExchangeConfig" + ".idpName,\n" + "        " + "}" + ");"
  {
    assert "        });" == "        " + "}" + ");";
  }

  /** The role extraction lines hold no `}`. */
  lemma NoBraceInRoleExtraction()
    ensures '}' !in RoleExtractionLines
  {
    NoBraceInRoleComment();
    NoBraceInRoleCommentEnd();
    NoBraceInRolesClaimPath();
    NoBraceInRolesClaimDefault();
    NoBraceInRolesValue();
    NoBraceInRolesAlternatives();
    NoBraceInRolesFallback();
  }

  /** Neither of fix #1's texts has a `}` before the one closing the log. */
  lemma NoBraceBeforeLogClose(lead: string)
    requires lead == "          idpName:" + " this.tokenExchangeConfig" + ".idpName,\n" + "        "
    ensures '}' !in UsernameLines + LogOpenLines + lead
    ensures '}' !in UsernameLines + RoleExtractionLines + LogOpenLines + RoleLogLines + lead
  {
    NoBraceInIdpNameEntry();
    NoBraceInUsernameComment();
    NoBraceInUsernameAssignment();
    NoBraceInRoleExtraction();
    NoBraceInLogOpen();
    NoBraceInLogOpenEnd();
    NoBraceInUsernameEntry();
    NoBraceInRoleEntries();
  }

  /** Fix #1's texts start with a space, and its replacement has an `a` where
      the target would have to start for an occurrence ending at the
      replacement's `}`. */
  lemma Fix1Witness()
    ensures Fix1Target[0] == ' '
    ensures Fix1Replacement[|RoleExtractionLines| + |RoleLogLines|] == 'a'
  {
    assert |UsernameLines| == 103 && |RoleExtractionLines| == 300 && |RoleLogLines| == 52;
    assert Fix1Replacement[352] == RoleExtractionLines[249];
  }

  /** Fix #1's texts start with the username comment, which starts with two
      spaces. */
  lemma UsernameStart()
    ensures "        // Use claim value as" <= UsernameLines
  {
  }

  /** No end of the text after the `}` is a beginning of fix #1's texts, which
      start with two spaces. */
  lemma LogCloseEndIsNoStart()
    ensures forall n :: 1 <= n <= 2 ==> ");"[2 - n..] != "        // Use claim value as"[..n]
  {
    var head := "        // Use claim value as";
    assert head[0] == ' ' && head[1] == ' ';
    assert ");"[1..][0] == ';' && ");"[0] == ')';
  }

  /** Replacing `Fix1Target` by `Fix1Replacement` can never re-form the
      target. */
  lemma Fix1CannotReform()
    ensures CannotReform(Fix1Target, Fix1Replacement)
  {
    var lead := "          idpName:" + " this.tokenExchangeConfig" + ".idpName,\n" + "        ";
    var tail := ");";
    var head := "        // Use claim value as";
    var before := UsernameLines + LogOpenLines + lead;
    var repBefore := UsernameLines + RoleExtractionLines + LogOpenLines + RoleLogLines + lead;
    LogCloseMarker();
    NoBraceBeforeLogClose(lead);
    MarkerAfterPrefix(UsernameLines + LogOpenLines, LogCloseLines, lead, '}', tail);
    MarkerAfterPrefix(UsernameLines + RoleExtractionLines + LogOpenLines + RoleLogLines,
                      LogCloseLines, lead, '}', tail);
    Fix1Witness();
    LogCloseEndIsNoStart();
    UsernameStart();
    PrefixOfExtension(head, UsernameLines, LogOpenLines + LogCloseLines);
    PrefixOfExtension(head, UsernameLines,
                      RoleExtractionLines + LogOpenLines + RoleLogLines + LogCloseLines);
    MarkedInsertionCannotReform(Fix1Target, Fix1Replacement, before, repBefore, '}', tail, head);
  }
}
