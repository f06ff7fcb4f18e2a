/**
 * The script that patches the PostgreSQL delegation module (apply-fixes.py):
 * three substitutions applied in order to the file's text, each on the output
 * of the previous one, after which the text is written back unconditionally.
 */
module ApplyFixes {
  import opened Text
  import opened PatchTexts

  /** Characters with a special meaning in a regular expression. */
  predicate IsMetacharacter(c: char)
  {
    || c == '.' || c == '^' || c == '$' || c == '*' || c == '+' || c == '?' || c == '\\'
    || c == '{' || c == '}' || c == '[' || c == ']' || c == '|' || c == '(' || c == ')'
  }

  /** `p` is a regular expression made only of ordinary characters and
      backslash-escaped metacharacters, so it matches one fixed text. Any other
      pattern (an unescaped metacharacter, an escape such as `\d`, a trailing
      backslash) is outside this model. */
  predicate IsLiteralPattern(p: string)
    decreases |p|
  {
    if p == [] then true
    else if p[0] == '\\' then |p| >= 2 && IsMetacharacter(p[1]) && IsLiteralPattern(p[2..])
    else !IsMetacharacter(p[0]) && IsLiteralPattern(p[1..])
  }

  /** The one text a literal pattern matches: each escape stands for the
      character it escapes. */
  function LiteralText(p: string): (text: string)
    requires IsLiteralPattern(p)
    decreases |p|
  {
    if p == [] then []
    else if p[0] == '\\' then [p[1]] + LiteralText(p[2..])
    else [p[0]] + LiteralText(p[1..])
  }

  /** Escape every metacharacter of `x` with a backslash. */
  function EscapeLiteral(x: string): (p: string)
  {
    if x == [] then []
    else if IsMetacharacter(x[0]) then ['\\', x[0]] + EscapeLiteral(x[1..])
    else [x[0]] + EscapeLiteral(x[1..])
  }

  /** A pattern built by escaping a text is literal and matches exactly that text. */
  lemma {:induction false} EscapedLiteralRoundTrip(x: string)
    ensures IsLiteralPattern(EscapeLiteral(x)) && LiteralText(EscapeLiteral(x)) == x
  {
    if x != [] {
      EscapedLiteralRoundTrip(x[1..]);
      var p := EscapeLiteral(x);
      if IsMetacharacter(x[0]) {
        assert p[2..] == EscapeLiteral(x[1..]);
      } else {
        assert p[1..] == EscapeLiteral(x[1..]);
      }
      assert x == [x[0]] + x[1..];
    }
  }

  /** Escaping distributes over concatenation. */
  lemma {:induction false} EscapeLiteralAppend(x: string, y: string)
    ensures EscapeLiteral(x + y) == EscapeLiteral(x) + EscapeLiteral(y)
    decreases |x|
  {
    if x == [] {
      assert x + y == y;
    } else {
      var xy := x + y;
      assert xy[0] == x[0] && xy[1..] == x[1..] + y;
      EscapeLiteralAppend(x[1..], y);
    }
  }

  /** Text free of metacharacters escapes to itself. */
  lemma {:induction false} PlainTextEscapesToItself(p: string)
    requires forall c :: c in p ==> !IsMetacharacter(c)
    ensures EscapeLiteral(p) == p
    decreases |p|
  {
    if p != [] {
      assert p[0] in p;
      assert forall c :: c in p[1..] ==> c in p;
      PlainTextEscapesToItself(p[1..]);
      assert p == [p[0]] + p[1..];
    }
  }

  /** Fix #2's pattern splits around its escaped dot ... */
  lemma Fix2PatternPieces()
    ensures Fix2Pattern == "tokenExchangeUsed: !!this" + "\\." + "tokenExchangeService"
  {
  }

  /** ... and its target around the dot the escape stands for. */
  lemma Fix2TargetPieces()
    ensures Fix2Target == "tokenExchangeUsed: !!this" + "." + "tokenExchangeService"
  {
  }

  /** The text around fix #2's escaped dot holds no metacharacter. */
  lemma Fix2PlainParts()
    ensures forall c :: c in "tokenExchangeUsed: !!this" ==> !IsMetacharacter(c)
    ensures forall c :: c in "tokenExchangeService" ==> !IsMetacharacter(c)
  {
  }

  /** Fix #2's pattern is its target with the dot escaped, so the regular
      expression substitution matches exactly the literal `Fix2Target`. */
  lemma Fix2PatternIsLiteral()
    ensures Fix2Pattern == EscapeLiteral(Fix2Target)
    ensures IsLiteralPattern(Fix2Pattern) && LiteralText(Fix2Pattern) == Fix2Target
  {
    var before, dot, after := "tokenExchangeUsed: !!this", ".", "tokenExchangeService";
    Fix2PlainParts();
    PlainTextEscapesToItself(before);
    PlainTextEscapesToItself(after);
    assert EscapeLiteral(dot) == "\\.";
    EscapeLiteralAppend(before, dot);
    EscapeLiteralAppend(before + dot, after);
    Fix2PatternPieces();
    Fix2TargetPieces();
    EscapedLiteralRoundTrip(Fix2Target);
  }

  /** `re.sub(pattern, repl, s)` for a literal pattern: every leftmost,
      non-overlapping match of the pattern's text becomes `repl`. */
  function SubstituteLiteral(s: string, pattern: string, repl: string): (r: string)
    requires IsLiteralPattern(pattern) && LiteralText(pattern) != []
  {
    ReplaceAll(s, LiteralText(pattern), repl)
  }

  /** Substituting the escaped form of a text is the literal replace-all of
      that text: `re.sub` on an escaped text is `str.replace`. */
  lemma SubstituteEscapedText(s: string, x: string, repl: string)
    requires x != []
    ensures IsLiteralPattern(EscapeLiteral(x))
    ensures SubstituteLiteral(s, EscapeLiteral(x), repl) == ReplaceAll(s, x, repl)
  {
    EscapedLiteralRoundTrip(x);
  }

  /** Fix #3: `str.replace` of its target, every occurrence. No occurrence of
      the target is left, since the replacement cannot re-form it. */
  function Fix3(content: string): (r: string)
    ensures !Contains(r, Fix3Target)
  {
    Fix3CannotReform();
    ReplaceAllRemovesEveryOccurrence(content, Fix3Target, Fix3Replacement);
    ReplaceAll(content, Fix3Target, Fix3Replacement)
  }

  /** Fix #1: `str.replace` of its target, every occurrence. No occurrence of
      the target is left, since the replacement cannot re-form it. */
  function Fix1(content: string): (r: string)
    ensures !Contains(r, Fix1Target)
  {
    Fix1CannotReform();
    ReplaceAllRemovesEveryOccurrence(content, Fix1Target, Fix1Replacement);
    ReplaceAll(content, Fix1Target, Fix1Replacement)
  }

  /** Fix #2: the regular expression substitution. Its pattern matches
      exactly `Fix2Target`, and no occurrence of that text is left. */
  function Fix2(content: string): (r: string)
    ensures !Contains(r, Fix2Target)
  {
    Fix2PatternIsLiteral();
    Fix2CannotReform();
    ReplaceAllRemovesEveryOccurrence(content, Fix2Target, Fix2Replacement);
    SubstituteLiteral(content, Fix2Pattern, Fix2Replacement)
  }

  /** The text the script writes back: fix #3, then #1, then #2, each applied
      to the output of the previous one. A fix whose target is missing
      changes nothing and is not reported. */
  function ApplyFixes(content: string): (patched: string)
    ensures !Contains(patched, Fix2Target)
  {
    Fix2(Fix1(Fix3(content)))
  }

  /** The script body: `content` is reassigned by each fix in turn. */
  method PatchPostgresModule(content: string) returns (patched: string)
    ensures patched == ApplyFixes(content)
    ensures !Contains(patched, Fix2Target)
  {
    patched := content;
    patched := Fix3(patched);
    patched := Fix1(patched);
    patched := Fix2(patched);
  }

  /** The regular expression substitution of fix #2 is exactly a literal
      replace-all of `Fix2Target` by `Fix2Replacement`. */
  lemma Fix2IsLiteralReplace(content: string)
    ensures Fix2Target != []
    ensures Fix2(content) == ReplaceAll(content, Fix2Target, Fix2Replacement)
  {
    Fix2PatternIsLiteral();
  }

  /** Running fix #2 twice gives the same text as running it once. */
  lemma Fix2Idempotent(content: string)
    ensures Fix2(Fix2(content)) == Fix2(content)
  {
    Fix2IsLiteralReplace(content);
    Fix2IsLiteralReplace(Fix2(content));
    Fix2CannotReform();
    ReplaceAllIdempotent(content, Fix2Target, Fix2Replacement);
  }

  /** Fix #2 shortens the text by one character per replaced occurrence
      ("Service" becomes "Config"). */
  lemma {:induction false} Fix2Length(content: string)
    ensures |Fix2(content)| == |content| - MatchCount(content, Fix2Target)
  {
    Fix2IsLiteralReplace(content);
    ReplaceAllGrowth(content, Fix2Target, Fix2Replacement, -1);
  }

  /** Fix #3 adds the roles claim lines once per occurrence of its target. */
  lemma {:induction false} Fix3Growth(content: string)
    ensures |Fix3(content)| == |content| + MatchCount(content, Fix3Target) * |RolesClaimLines|
  {
    ReplaceAllGrowth(content, Fix3Target, Fix3Replacement, |RolesClaimLines|);
  }

  /** At the first occurrence of its target, at `i`, fix #3 is a pure
      insertion: the roles claim lines go right after the `requiredClaim`
      lines, and the token cache comment and the rest of the text follow. */
  lemma Fix3InsertsAfterRequiredClaim(content: string, i: int)
    requires FindFirst(content, Fix3Target) == i && i != -1
    ensures i + |Fix3Target| <= |content|
    ensures Fix3(content)
      == content[..i + |RequiredClaimLines|] + RolesClaimLines
         + content[i + |RequiredClaimLines|..i + |Fix3Target|]
         + Fix3(content[i + |Fix3Target|..])
  {
    ReplaceAllInsertsAtFirstMatch(content, RequiredClaimLines, RolesClaimLines, TokenCacheLine, i);
  }

  /** Fix #1 adds the role extraction and the two log entries once per
      occurrence of its target. */
  lemma {:induction false} Fix1Growth(content: string)
    ensures |Fix1(content)|
      == |content| + MatchCount(content, Fix1Target) * (|RoleExtractionLines| + |RoleLogLines|)
  {
    ReplaceAllGrowth(content, Fix1Target, Fix1Replacement, |RoleExtractionLines| + |RoleLogLines|);
  }

  /** At the first occurrence of its target, at `i`, fix #1 is a pure
      insertion at two places: the role extraction right after the username
      assignment, and the two log entries right after the username entry of
      the success log. */
  lemma Fix1InsertsRoleExtractionAndLog(content: string, i: int)
    requires FindFirst(content, Fix1Target) == i && i != -1
    ensures i + |UsernameLines| + |LogOpenLines| + |LogCloseLines| <= |content|
    ensures var u := i + |UsernameLines|;
      var l := u + |LogOpenLines|;
      var e := l + |LogCloseLines|;
      Fix1(content)
      == content[..u] + RoleExtractionLines + content[u..l] + RoleLogLines + content[l..e]
         + Fix1(content[e..])
  {
    ReplaceAllInsertsTwiceAtFirstMatch(content, UsernameLines, RoleExtractionLines, LogOpenLines,
                                       RoleLogLines, LogCloseLines, i);
  }

  /** With none of the three targets present, the script writes back the
      text it read, unchanged, and still reports success. */
  lemma FixesWithoutTargetsAreNoOp(content: string)
    requires !Contains(content, Fix3Target)
    requires !Contains(content, Fix1Target)
    requires !Contains(content, Fix2Target)
    ensures ApplyFixes(content) == content
  {
    ReplaceAllWithoutMatch(content, Fix3Target, Fix3Replacement);
    ReplaceAllWithoutMatch(content, Fix1Target, Fix1Replacement);
    Fix2IsLiteralReplace(content);
    ReplaceAllWithoutMatch(content, Fix2Target, Fix2Replacement);
  }
}
