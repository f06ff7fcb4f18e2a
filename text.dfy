/**
 * Literal substring search and replacement on in-memory text, as the two
 * patch scripts use them: Python's `str.find` and `str.replace` (with no count
 * limit), on strings modelled as sequences of characters.
 */
module Text {

  /** `pat` occurs in `s` starting at index `i`. */
  predicate OccursAt(s: string, pat: string, i: int)
  {
    0 <= i && i + |pat| <= |s| && s[i..i + |pat|] == pat
  }

  /** `pat` occurs somewhere in `s`. */
  predicate Contains(s: string, pat: string)
  {
    exists i :: 0 <= i <= |s| && OccursAt(s, pat, i)
  }

  /** Search for `pat` in `s` from index `from` on, one position at a time:
      -1 when the search runs off the end. */
  function FindFrom(s: string, pat: string, from: nat): (r: int)
    decreases |s| - from
    ensures r == -1 || (from <= r && r + |pat| <= |s|)
  {
    if from + |pat| > |s| then -1
    else if s[from..from + |pat|] == pat then from
    else FindFrom(s, pat, from + 1)
  }

  /** `FindFrom` reports the least occurrence at or after `from`, and -1 only
      when there is none. */
  lemma {:induction false} FindFromIsLeast(s: string, pat: string, from: nat)
    ensures FindFrom(s, pat, from) == -1 || OccursAt(s, pat, FindFrom(s, pat, from))
    ensures forall j :: from <= j && (FindFrom(s, pat, from) == -1 || j < FindFrom(s, pat, from))
                        ==> !OccursAt(s, pat, j)
    decreases |s| - from
  {
    if from + |pat| <= |s| && s[from..from + |pat|] != pat {
      FindFromIsLeast(s, pat, from + 1);
    }
  }

  /** `s.find(pat)`: -1 or an index where `pat` fits in `s`. */
  function FindFirst(s: string, pat: string): (r: int)
    ensures r == -1 || (0 <= r && r + |pat| <= |s|)
  {
    FindFrom(s, pat, 0)
  }

  /** `s.find(pat)` is -1 exactly when `pat` does not occur in `s`, and
      otherwise the least index at which it occurs. */
  lemma FindFirstIsLeast(s: string, pat: string)
    ensures FindFirst(s, pat) == -1 <==> !Contains(s, pat)
    ensures FindFirst(s, pat) != -1 ==> OccursAt(s, pat, FindFirst(s, pat))
    ensures forall j :: 0 <= j && (FindFirst(s, pat) == -1 || j < FindFirst(s, pat))
                        ==> !OccursAt(s, pat, j)
  {
    FindFromIsLeast(s, pat, 0);
  }

  /** An occurrence with no earlier occurrence is the one `FindFirst` reports. */
  lemma FirstOccurrenceIsFound(s: string, pat: string, i: int)
    requires OccursAt(s, pat, i)
    requires forall j :: 0 <= j < i ==> !OccursAt(s, pat, j)
    ensures FindFirst(s, pat) == i
  {
    FindFirstIsLeast(s, pat);
  }

  /** `s.replace(pat, rep)` for a non-empty `pat`, as Python computes it:
      find the first occurrence, copy the text before it, emit `rep`, and carry
      on after the end of that occurrence; with no occurrence left, copy the
      rest. So every occurrence that does not overlap an earlier replaced one
      becomes `rep`, leftmost first, and all other text is kept in order. */
  function ReplaceAll(s: string, pat: string, rep: string): (r: string)
    requires pat != []
    decreases |s|
  {
    var i := FindFirst(s, pat);
    if i == -1 then s else s[..i] + rep + ReplaceAll(s[i + |pat|..], pat, rep)
  }

  /** The number of occurrences `ReplaceAll` replaces: each search resumes
      after the end of the previous match. */
  function MatchCount(s: string, pat: string): (n: nat)
    requires pat != []
    decreases |s|
  {
    var i := FindFirst(s, pat);
    if i == -1 then 0 else 1 + MatchCount(s[i + |pat|..], pat)
  }

  /** Replace-all replaces something exactly when the pattern occurs. */
  lemma MatchCountZeroIffAbsent(s: string, pat: string)
    requires pat != []
    ensures MatchCount(s, pat) == 0 <==> !Contains(s, pat)
  {
    FindFirstIsLeast(s, pat);
  }

  /** One step of `ReplaceAll` at the first match `i`, with `rest` the text
      after that match. */
  lemma ReplaceAllAtFirstMatch(s: string, pat: string, rep: string, i: int, rest: string)
    requires pat != [] && FindFirst(s, pat) == i && i != -1
    requires rest == s[i + |pat|..]
    ensures ReplaceAll(s, pat, rep) == s[..i] + rep + ReplaceAll(rest, pat, rep)
  {
  }

  /** One step of `MatchCount` at the first match `i`. */
  lemma MatchCountAtFirstMatch(s: string, pat: string, i: int, rest: string)
    requires pat != [] && FindFirst(s, pat) == i && i != -1
    requires rest == s[i + |pat|..]
    ensures MatchCount(s, pat) == 1 + MatchCount(rest, pat)
  {
  }

  /** A replace-all whose pattern does not occur leaves the text unchanged. */
  lemma ReplaceAllWithoutMatch(s: string, pat: string, rep: string)
    requires pat != []
    requires !Contains(s, pat)
    ensures ReplaceAll(s, pat, rep) == s
  {
    FindFirstIsLeast(s, pat);
  }

  /** Replace-all changes the length by the length difference once per replaced
      occurrence: every occurrence is replaced, not only the first. */
  lemma {:induction false} ReplaceAllLength(s: string, pat: string, rep: string)
    requires pat != []
    ensures |ReplaceAll(s, pat, rep)| == |s| + MatchCount(s, pat) * (|rep| - |pat|)
    decreases |s|
  {
    var i := FindFirst(s, pat);
    if i != -1 {
      var rest := s[i + |pat|..];
      ReplaceAllAtFirstMatch(s, pat, rep, i, rest);
      MatchCountAtFirstMatch(s, pat, i, rest);
      ReplaceAllLength(rest, pat, rep);
      OneMoreMatch(|s|, i, |pat|, |rep|, MatchCount(rest, pat), MatchCount(s, pat));
    }
  }

  /** The length bookkeeping of one more replaced occurrence, at `i`. */
  lemma OneMoreMatch(n: int, i: int, patLen: int, repLen: int, restCount: int, count: int)
    requires count == 1 + restCount
    ensures i + repLen + ((n - i - patLen) + restCount * (repLen - patLen))
         == n + count * (repLen - patLen)
  {
  }

  /** Replace-all with a replacement `growth` characters longer than the
      pattern grows the text by `growth` per replaced occurrence. */
  lemma {:induction false} ReplaceAllGrowth(s: string, pat: string, rep: string, growth: int)
    requires pat != [] && |rep| == |pat| + growth
    ensures |ReplaceAll(s, pat, rep)| == |s| + MatchCount(s, pat) * growth
  {
    ReplaceAllLength(s, pat, rep);
  }

  /** A replacement that inserts `ins` into the middle of the pattern
      (`head + tail` becomes `head + ins + tail`) is a pure insertion at each
      match: at the first match, at `i`, the output is the text up to the end
      of `head`, then `ins`, then `tail`, then the rest processed alike. */
  lemma ReplaceAllInsertsAtFirstMatch(s: string, head: string, ins: string, tail: string,
                                      i: int)
    requires head + tail != []
    requires FindFirst(s, head + tail) == i && i != -1
    ensures i + |head| + |tail| <= |s|
    ensures ReplaceAll(s, head + tail, head + ins + tail)
      == s[..i + |head|] + ins + s[i + |head|..i + |head| + |tail|]
         + ReplaceAll(s[i + |head| + |tail|..], head + tail, head + ins + tail)
  {
    var pat, rep := head + tail, head + ins + tail;
    FindFirstIsLeast(s, pat);
    var e := i + |head| + |tail|;
    TwoPartOccurrence(s, head, tail, i);
    var rest := s[e..];
    ReplaceAllAtFirstMatch(s, pat, rep, i, rest);
    RegroupOne(s[..i], head, ins, tail, ReplaceAll(rest, pat, rep));
  }

  /** Concatenation regrouped around an inserted replacement. */
  lemma RegroupOne(pre: string, head: string, ins: string, tail: string, rest: string)
    ensures pre + (head + ins + tail) + rest == (pre + head) + ins + tail + rest
  {
  }

  /** The same for a replacement that inserts `ins1` and `ins2` at two places
      of the pattern (`a + b + c` becomes `a + ins1 + b + ins2 + c`). */
  lemma ReplaceAllInsertsTwiceAtFirstMatch(s: string, a: string, ins1: string, b: string,
                                           ins2: string, c: string, i: int)
    requires a + b + c != []
    requires FindFirst(s, a + b + c) == i && i != -1
    ensures i + |a| + |b| + |c| <= |s|
    ensures ReplaceAll(s, a + b + c, a + ins1 + b + ins2 + c)
      == s[..i + |a|] + ins1 + s[i + |a|..i + |a| + |b|] + ins2
         + s[i + |a| + |b|..i + |a| + |b| + |c|]
         + ReplaceAll(s[i + |a| + |b| + |c|..], a + b + c, a + ins1 + b + ins2 + c)
  {
    var pat, rep := a + b + c, a + ins1 + b + ins2 + c;
    FindFirstIsLeast(s, pat);
    var e := i + |a| + |b| + |c|;
    ThreePartOccurrence(s, a, b, c, i);
    var rest := s[e..];
    ReplaceAllAtFirstMatch(s, pat, rep, i, rest);
    Regroup(s[..i], a, ins1, b, ins2, c, ReplaceAll(rest, pat, rep));
  }

  /** Concatenation regrouped around an inserted replacement. */
  lemma Regroup(pre: string, a: string, ins1: string, b: string, ins2: string, c: string,
                rest: string)
    ensures pre + (a + ins1 + b + ins2 + c) + rest == (pre + a) + ins1 + b + ins2 + c + rest
  {
  }

  /** An occurrence of `a + c` at `i` splits into its two parts. */
  lemma TwoPartOccurrence(s: string, a: string, c: string, i: int)
    requires OccursAt(s, a + c, i)
    ensures s[..i + |a|] == s[..i] + a
    ensures s[i + |a|..i + |a| + |c|] == c
  {
    var e := i + |a + c|;
    var m := s[i..e];
    assert m == a + c;
    assert s[i..i + |a|] == m[..|a|] == a;
    assert s[i + |a|..e] == m[|a|..] == c;
    assert s[..i + |a|] == s[..i] + s[i..i + |a|];
  }

  /** An occurrence of `a + b + c` at `i` splits into its three parts. */
  lemma ThreePartOccurrence(s: string, a: string, b: string, c: string, i: int)
    requires OccursAt(s, a + b + c, i)
    ensures s[..i + |a|] == s[..i] + a
    ensures s[i + |a|..i + |a| + |b|] == b
    ensures s[i + |a| + |b|..i + |a| + |b| + |c|] == c
  {
    var e := i + |a + b + c|;
    var m := s[i..e];
    assert m == a + b + c;
    assert s[i..i + |a|] == m[..|a|] == a;
    assert s[i + |a|..i + |a| + |b|] == m[|a|..|a| + |b|] == b;
    assert s[i + |a| + |b|..e] == m[|a| + |b|..] == c;
    assert s[..i + |a|] == s[..i] + s[i..i + |a|];
  }

  /** `s.split(pat)`: the pieces of `s` between the occurrences `ReplaceAll`
      replaces, leftmost first; a text without `pat` is one piece. */
  function Split(s: string, pat: string): (pieces: seq<string>)
    requires pat != []
    ensures pieces != []
    decreases |s|
  {
    var i := FindFirst(s, pat);
    if i == -1 then [s] else [s[..i]] + Split(s[i + |pat|..], pat)
  }

  /** `sep.join(pieces)`: the pieces in order with `sep` between neighbours. */
  function Join(sep: string, pieces: seq<string>): (s: string)
    requires pieces != []
    decreases |pieces|
  {
    if |pieces| == 1 then pieces[0] else pieces[0] + sep + Join(sep, pieces[1..])
  }

  /** One step of `Split` at the first match `i`. */
  lemma SplitAtFirstMatch(s: string, pat: string, i: int, rest: string)
    requires pat != [] && FindFirst(s, pat) == i && i != -1
    requires rest == s[i + |pat|..]
    ensures Split(s, pat) == [s[..i]] + Split(rest, pat)
  {
  }

  /** Joining a first piece to more pieces puts `sep` after it. */
  lemma JoinFirst(sep: string, first: string, pieces: seq<string>)
    requires pieces != []
    ensures Join(sep, [first] + pieces) == first + sep + Join(sep, pieces)
  {
    assert ([first] + pieces)[1..] == pieces;
  }

  /** Joining the pieces of a split by the pattern gives the text back:
      `pat.join(s.split(pat)) == s`. */
  lemma {:induction false} SplitJoinRoundTrip(s: string, pat: string)
    requires pat != []
    ensures Join(pat, Split(s, pat)) == s
    decreases |s|
  {
    FindFirstIsLeast(s, pat);
    var i := FindFirst(s, pat);
    if i != -1 {
      var rest := s[i + |pat|..];
      SplitAtFirstMatch(s, pat, i, rest);
      SplitJoinRoundTrip(rest, pat);
      JoinFirst(pat, s[..i], Split(rest, pat));
      assert s == s[..i] + s[i..i + |pat|] + rest;
    }
  }

  /** Replace-all is the split joined by the replacement:
      `s.replace(pat, rep) == rep.join(s.split(pat))`. */
  lemma {:induction false} ReplaceAllJoinsSplit(s: string, pat: string, rep: string)
    requires pat != []
    ensures ReplaceAll(s, pat, rep) == Join(rep, Split(s, pat))
    decreases |s|
  {
    var i := FindFirst(s, pat);
    if i != -1 {
      var rest := s[i + |pat|..];
      SplitAtFirstMatch(s, pat, i, rest);
      ReplaceAllAtFirstMatch(s, pat, rep, i, rest);
      ReplaceAllJoinsSplit(rest, pat, rep);
      JoinFirst(rep, s[..i], Split(rest, pat));
    }
  }

  /** The text before the first match does not contain the pattern. */
  lemma PieceBeforeFirstMatch(s: string, pat: string, i: int)
    requires pat != [] && FindFirst(s, pat) == i && i != -1
    ensures !Contains(s[..i], pat)
  {
    FindFirstIsLeast(s, pat);
    var piece := s[..i];
    forall j | 0 <= j <= |piece| && OccursAt(piece, pat, j) ensures OccursAt(s, pat, j) {
      assert s[j..j + |pat|] == piece[j..j + |pat|];
    }
  }

  /** The text before the first match, followed by the pattern, first holds
      the pattern at its end. */
  lemma PieceThenMatch(s: string, pat: string, i: int)
    requires pat != [] && FindFirst(s, pat) == i && i != -1
    ensures FindFirst(s[..i] + pat, pat) == i
  {
    FindFirstIsLeast(s, pat);
    var t := s[..i] + pat;
    assert t == s[..i + |pat|];
    forall j | 0 <= j < i ensures !OccursAt(t, pat, j) {
      assert !OccursAt(s, pat, j);
      assert j + |pat| <= |t| ==> s[j..j + |pat|] == t[j..j + |pat|];
    }
    assert t[i..i + |pat|] == pat;
    FirstOccurrenceIsFound(t, pat, i);
  }

  /** The pieces of a split are the texts between leftmost matches: no piece
      contains the pattern, every piece but the last is followed by an
      occurrence that is the first one from the piece's start, and there is
      one piece more than `ReplaceAll` replaces occurrences. */
  lemma {:induction false} SplitPieces(s: string, pat: string)
    requires pat != []
    ensures |Split(s, pat)| == MatchCount(s, pat) + 1
    ensures forall k :: 0 <= k < |Split(s, pat)| ==> !Contains(Split(s, pat)[k], pat)
    ensures forall k :: 0 <= k < |Split(s, pat)| - 1
                        ==> FindFirst(Split(s, pat)[k] + pat, pat) == |Split(s, pat)[k]|
    decreases |s|
  {
    FindFirstIsLeast(s, pat);
    var i := FindFirst(s, pat);
    if i != -1 {
      var rest := s[i + |pat|..];
      SplitAtFirstMatch(s, pat, i, rest);
      MatchCountAtFirstMatch(s, pat, i, rest);
      SplitPieces(rest, pat);
      PieceBeforeFirstMatch(s, pat, i);
      PieceThenMatch(s, pat, i);
    }
  }

  /** Replace-all is idempotent when the replacement cannot re-form the
      pattern: a second pass finds nothing left to replace. */
  lemma ReplaceAllIdempotent(s: string, pat: string, rep: string)
    requires pat != []
    requires CannotReform(pat, rep)
    ensures ReplaceAll(ReplaceAll(s, pat, rep), pat, rep) == ReplaceAll(s, pat, rep)
  {
    ReplaceAllRemovesEveryOccurrence(s, pat, rep);
    ReplaceAllWithoutMatch(ReplaceAll(s, pat, rep), pat, rep);
  }

  /** `a` and `b` agree on their common length: one is a prefix of the other. */
  predicate PrefixCompatible(a: string, b: string)
  {
    a <= b || b <= a
  }

  /** Conditions under which replacing `pat` by `rep` can never leave an
      occurrence of `pat` behind:
      - `rep` does not contain `pat`;
      - no non-empty end of `rep` is a proper beginning of `pat`, so no
        occurrence can start inside an inserted `rep` and run on past it;
      - no proper end of `pat` is prefix-compatible with `rep`, so no
        occurrence can start in the kept text and run on into an inserted `rep`. */
  predicate CannotReform(pat: string, rep: string)
  {
    && !Contains(rep, pat)
    && (forall m :: 1 <= m < |pat| && m <= |rep| ==> rep[|rep| - m..] != pat[..m])
    && (forall k :: 1 <= k < |pat| ==> !PrefixCompatible(pat[k..], rep))
  }

  /** When the replacement cannot re-form the pattern, no occurrence of `pat`
      survives a replace-all. */
  lemma {:induction false} ReplaceAllRemovesEveryOccurrence(s: string, pat: string, rep: string)
    requires pat != []
    requires CannotReform(pat, rep)
    ensures !Contains(ReplaceAll(s, pat, rep), pat)
    decreases |s|
  {
    FindFirstIsLeast(s, pat);
    var i := FindFirst(s, pat);
    if i == -1 {
      ReplaceAllWithoutMatch(s, pat, rep);
    } else {
      var rest := s[i + |pat|..];
      var tail := ReplaceAll(rest, pat, rep);
      ReplaceAllAtFirstMatch(s, pat, rep, i, rest);
      ReplaceAllRemovesEveryOccurrence(rest, pat, rep);
      var r := s[..i] + rep + tail;
      forall j | OccursAt(r, pat, j) ensures false {
        SpliceOccurrence(s, i, rep, tail, pat, j);
      }
    }
  }

  /** Where an occurrence at `j` of `pat` in `s[..i] + rep + tail` can sit:
      wholly inside the kept prefix, across its end into `rep`, wholly inside
      `rep`, from inside `rep` on into `tail`, or wholly inside `tail`. */
  lemma SpliceOccurrence(s: string, i: nat, rep: string, tail: string, pat: string, j: int)
    requires i <= |s| && pat != []
    requires OccursAt(s[..i] + rep + tail, pat, j)
    ensures j + |pat| <= i ==> OccursAt(s, pat, j)
    ensures j < i < j + |pat| ==> PrefixCompatible(pat[i - j..], rep)
    ensures i <= j && j + |pat| <= i + |rep| ==> OccursAt(rep, pat, j - i)
    ensures i <= j < i + |rep| < j + |pat| ==> rep[j - i..] == pat[..i + |rep| - j]
    ensures i + |rep| <= j ==> OccursAt(tail, pat, j - i - |rep|)
  {
    var r := s[..i] + rep + tail;
    assert r[j..j + |pat|] == pat;
    if j + |pat| <= i {
      assert s[j..j + |pat|] == r[j..j + |pat|];
    } else if j < i {
      var k := i - j;
      assert pat[k..] == r[i..j + |pat|];
      if |pat| - k <= |rep| {
        assert r[i..j + |pat|] == rep[..|pat| - k];
      } else {
        assert r[i..i + |rep|] == rep;
        assert pat[k..][..|rep|] == rep;
      }
    } else if j < i + |rep| {
      if j + |pat| <= i + |rep| {
        assert rep[j - i..j - i + |pat|] == r[j..j + |pat|];
      } else {
        assert rep[j - i..] == r[j..i + |rep|] == pat[..i + |rep| - j];
      }
    } else {
      assert tail[j - i - |rep|..j - i - |rep| + |pat|] == r[j..j + |pat|];
    }
  }

  /** Appending to a text whose end holds the marker keeps the marker at
      the same distance from the end. */
  lemma MarkerAfterPrefix(pre: string, s: string, lead: string, c: char, tail: string)
    requires s == lead + [c] + tail
    ensures pre + s == (pre + lead) + [c] + tail
  {
  }

  /** A beginning of a text is a beginning of any extension of it. */
  lemma PrefixOfExtension(head: string, s: string, rest: string)
    requires head <= s
    ensures head <= s + rest
  {
  }

  /** The shape `MarkedInsertionCannotReform` needs: `pat` and `rep` end in
      the same `[c] + tail`, `c` occurs nowhere before it in either text, and
      `rep` puts more text before the marker than `pat` does. */
  predicate MarkedInsertion(pat: string, rep: string, before: string, repBefore: string,
                            c: char, tail: string)
  {
    && pat == before + [c] + tail
    && rep == repBefore + [c] + tail
    && |before| < |repBefore|
    && c !in before && c !in repBefore
  }

  /** No occurrence of `pat` inside `rep`: at a shift below the extra length
      the marker of `pat` lands before the marker of `rep`; at exactly that
      shift the first characters differ; beyond it `pat` does not fit. */
  lemma MarkedRepLacksPat(pat: string, rep: string, before: string, repBefore: string,
                          c: char, tail: string)
    requires MarkedInsertion(pat, rep, before, repBefore, c, tail)
    requires pat[0] != rep[|repBefore| - |before|]
    ensures !Contains(rep, pat)
  {
    var g := |repBefore| - |before|;
    forall i | 0 <= i <= |rep| ensures !OccursAt(rep, pat, i) {
      if i < g {
        assert pat[|before|] == c && rep[i + |before|] == repBefore[i + |before|];
      } else if i == g {
        assert rep[i..i + |pat|][0] == rep[g];
      }
    }
  }

  /** No end of `rep` is a proper beginning of `pat`: a short end lies in
      `tail`, which does not end in a beginning of `head`; a longer one holds
      the marker where `pat` has a character of `before`. */
  lemma MarkedRepNoOverhang(pat: string, rep: string, before: string, repBefore: string,
                            c: char, tail: string, head: string)
    requires MarkedInsertion(pat, rep, before, repBefore, c, tail)
    requires head <= pat && |tail| <= |head|
    requires forall n :: 1 <= n <= |tail| ==> tail[|tail| - n..] != head[..n]
    ensures forall m :: 1 <= m < |pat| && m <= |rep| ==> rep[|rep| - m..] != pat[..m]
  {
    forall m | 1 <= m < |pat| && m <= |rep| ensures rep[|rep| - m..] != pat[..m] {
      if m <= |tail| {
        assert rep[|rep| - m..] == tail[|tail| - m..];
        assert pat[..m] == head[..m];
      } else {
        var x := m - |tail| - 1;
        assert rep[|rep| - m..][x] == c;
        assert pat[..m][x] == before[x];
      }
    }
  }

  /** No proper end of `pat` is prefix-compatible with `rep`: `rep` is longer
      than any end of `pat`; an end that still holds the marker has it where
      `rep` has a character of `repBefore`; a shorter one lies in `tail`. */
  lemma MarkedPatNoRunOn(pat: string, rep: string, before: string, repBefore: string,
                         c: char, tail: string, head: string)
    requires MarkedInsertion(pat, rep, before, repBefore, c, tail)
    requires head <= rep && |tail| <= |head|
    requires forall n :: 1 <= n <= |tail| ==> tail[|tail| - n..] != head[..n]
    ensures forall k :: 1 <= k < |pat| ==> !PrefixCompatible(pat[k..], rep)
  {
    forall k | 1 <= k < |pat| ensures !PrefixCompatible(pat[k..], rep) {
      if k <= |before| {
        var x := |before| - k;
        assert pat[k..][x] == c && rep[x] == repBefore[x];
      } else {
        var n := |pat| - k;
        assert pat[k..] == tail[|tail| - n..];
        assert rep[..n] == head[..n];
      }
    }
  }

  /** A replacement that inserts text before a marker character which occurs
      exactly once in each text, at the same distance from the end, cannot
      re-form its pattern, provided the text after the marker does not end in
      a beginning of both texts and the pattern's first character differs from
      the replacement's at the inserted length. */
  lemma MarkedInsertionCannotReform(pat: string, rep: string, before: string, repBefore: string,
                                    c: char, tail: string, head: string)
    requires MarkedInsertion(pat, rep, before, repBefore, c, tail)
    requires pat[0] != rep[|repBefore| - |before|]
    requires head <= pat && head <= rep && |tail| <= |head|
    requires forall n :: 1 <= n <= |tail| ==> tail[|tail| - n..] != head[..n]
    ensures CannotReform(pat, rep)
  {
    MarkedRepLacksPat(pat, rep, before, repBefore, c, tail);
    MarkedRepNoOverhang(pat, rep, before, repBefore, c, tail, head);
    MarkedPatNoRunOn(pat, rep, before, repBefore, c, tail, head);
  }
}
