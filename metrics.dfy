/** Evaluation metrics for Japanese lipograms: the reading-based constraint
    check, the vocabulary replacement rate (VRR), the type-token ratio (TTR)
    and the n-gram repetition rate. The analyser is the `Tokenizer` oracle;
    ratios are exact rationals (`real`) where the original uses floats. */
module Metrics {
  import opened Wrappers
  import opened Text
  import opened Utils
  import opened JaTokens

  // ---------------------------------------------------------------------------
  // Token helpers
  // ---------------------------------------------------------------------------

  /** UniDic's first-level part of speech for symbols and punctuation. */
  const SymbolPos := "記号"

  /** A token counts unless its surface is empty or blank, or it is a symbol. */
  predicate IsContentToken(t: Token)
  {
    Strip(t.surface) != [] && t.pos != SymbolPos
  }

  /** The content tokens, in their original order. */
  function ContentTokens(tokens: seq<Token>): (r: seq<Token>)
    ensures |r| <= |tokens|
  {
    if tokens == [] then []
    else if IsContentToken(tokens[0]) then [tokens[0]] + ContentTokens(tokens[1..])
    else ContentTokens(tokens[1..])
  }

  /** A token is kept exactly when it is a content token of the input. */
  lemma {:induction false} ContentTokensExactly(tokens: seq<Token>)
    ensures forall t :: t in ContentTokens(tokens) <==> t in tokens && IsContentToken(t)
  {
    if tokens != [] {
      ContentTokensExactly(tokens[1..]);
      assert tokens == [tokens[0]] + tokens[1..];
    }
  }

  /** Filtering twice is filtering once. */
  lemma {:induction false} ContentTokensIdempotent(tokens: seq<Token>)
    ensures ContentTokens(ContentTokens(tokens)) == ContentTokens(tokens)
  {
    if tokens != [] {
      ContentTokensIdempotent(tokens[1..]);
      if IsContentToken(tokens[0]) {
        var rest := ContentTokens(tokens[1..]);
        assert ([tokens[0]] + rest)[1..] == rest;
      }
    }
  }

  /** The surfaces of the content tokens of the analysed text. */
  function ContentSurfaces(text: string, tokenize: Tokenizer): seq<string>
  {
    Surfaces(ContentTokens(tokenize(text)))
  }

  // ---------------------------------------------------------------------------
  // Constraint checking
  // ---------------------------------------------------------------------------

  /** The reading of a whole text: the token readings, concatenated. */
  function ExtractReading(text: string, tokenize: Tokenizer): string
  {
    JoinedReading(tokenize(text))
  }

  /** Every token's reading occurs in the concatenated reading. */
  lemma ReadingHoldsTokenReading(tokens: seq<Token>, k: nat)
    requires k < |tokens|
    ensures IsSubstring(tokens[k].reading, JoinedReading(tokens))
  {
    var rs := Readings(tokens);
    var x := rs[k];
    assert rs == rs[..k] + [x] + rs[k + 1..];
    ConcatAppend(rs[..k] + [x], rs[k + 1..]);
    ConcatAppend(rs[..k], [x]);
    assert [x][1..] == [];
    assert Concat([x]) == x;
    assert OccursAt(x, x, 0);
    SubstringOfLarger(x, x, Concat(rs[..k]), Concat(rs[k + 1..]));
  }

  /** Occurrence is transitive. */
  lemma SubstringTransitive(x: string, y: string, z: string)
    requires IsSubstring(x, y) && IsSubstring(y, z)
    ensures IsSubstring(x, z)
  {
    var p :| 0 <= p <= |y| - |x| && OccursAt(x, y, p);
    var q :| 0 <= q <= |z| - |y| && OccursAt(y, z, q);
    forall t | 0 <= t < |x|
      ensures z[q + p + t] == x[t]
    {
      assert z[q..q + |y|][p + t] == y[p + t];
      assert y[p..p + |x|][t] == y[p + t];
    }
    assert z[q + p..q + p + |x|] == x;
    assert OccursAt(x, z, q + p);
  }

  /** The outcome of a check: whether it is violated, the banned entries
      found (in list order), the total number of occurrences, and the mode. */
  datatype ConstraintCheckResult = ConstraintCheckResult(violated: bool, found: seq<string>, count: nat, mode: string)

  /** The banned entries that occur in `basis`, in list order; an entry listed
      twice is reported twice. */
  function FoundKana(basis: string, banned: seq<string>): (r: seq<string>)
    ensures |r| <= |banned|
    decreases |banned|
  {
    if banned == [] then []
    else
      var last := banned[|banned| - 1];
      FoundKana(basis, banned[..|banned| - 1]) + (if Count(basis, last) > 0 then [last] else [])
  }

  /** The occurrences of all banned entries in `basis`, summed. */
  function TotalCount(basis: string, banned: seq<string>): nat
    decreases |banned|
  {
    if banned == [] then 0
    else TotalCount(basis, banned[..|banned| - 1]) + Count(basis, banned[|banned| - 1])
  }

  /** Checks a text against a list of banned kana, either on the concatenated
      readings ("reading") or on the text itself ("surface"); any other mode
      is an error. */
  method CheckConstraint(text: string, bannedKana: seq<string>, tokenize: Tokenizer, mode: string)
    returns (result: Result<ConstraintCheckResult, string>)
    ensures result.Failure? <==> mode != "reading" && mode != "surface"
    ensures result.Success? ==>
              var basis := if mode == "reading" then ExtractReading(text, tokenize) else text;
              result.value == ConstraintCheckResult(TotalCount(basis, bannedKana) > 0, FoundKana(basis, bannedKana),
                                                    TotalCount(basis, bannedKana), mode)
  {
    if mode != "reading" && mode != "surface" {
      return Failure("mode must be 'reading' or 'surface'");
    }
    var basis := if mode == "reading" then ExtractReading(text, tokenize) else text;
    var found := [];
    var total := 0;
    for i := 0 to |bannedKana|
      invariant found == FoundKana(basis, bannedKana[..i])
      invariant total == TotalCount(basis, bannedKana[..i])
    {
      assert bannedKana[..i + 1][..i] == bannedKana[..i];
      var c := Count(basis, bannedKana[i]);
      if c > 0 {
        found := found + [bannedKana[i]];
        total := total + c;
      }
    }
    assert bannedKana[..|bannedKana|] == bannedKana;
    return Success(ConstraintCheckResult(total > 0, found, total, mode));
  }

  /** An entry is reported exactly when it is banned and occurs in the basis. */
  lemma {:induction false} FoundKanaExactly(basis: string, banned: seq<string>)
    ensures forall x :: x in FoundKana(basis, banned) <==> x in banned && IsSubstring(x, basis)
    decreases |banned|
  {
    if banned != [] {
      var init, last := banned[..|banned| - 1], banned[|banned| - 1];
      FoundKanaExactly(basis, init);
      assert banned == init + [last];
    }
  }

  /** The count is positive exactly when some banned entry occurs. */
  lemma {:induction false} TotalCountPositive(basis: string, banned: seq<string>)
    ensures TotalCount(basis, banned) > 0 <==> exists i :: 0 <= i < |banned| && IsSubstring(banned[i], basis)
    decreases |banned|
  {
    if banned != [] {
      var init := banned[..|banned| - 1];
      TotalCountPositive(basis, init);
      if exists i :: 0 <= i < |banned| && IsSubstring(banned[i], basis) {
        var i :| 0 <= i < |banned| && IsSubstring(banned[i], basis);
        if i < |init| {
          assert init[i] == banned[i];
        }
      }
      if exists i :: 0 <= i < |init| && IsSubstring(init[i], basis) {
        var i :| 0 <= i < |init| && IsSubstring(init[i], basis);
        assert banned[i] == init[i];
      }
    }
  }

  /** The check is violated exactly when the banned-entry test used by the
      rewriters holds on the same basis. */
  lemma ViolatedIffContainsBanned(basis: string, banned: seq<string>)
    ensures TotalCount(basis, banned) > 0 <==> ContainsBanned(basis, banned)
  {
    TotalCountPositive(basis, banned);
    ContainsBannedIff(basis, banned);
  }

  /** Nothing is reported exactly when nothing is counted. */
  lemma FoundIffViolated(basis: string, banned: seq<string>)
    ensures FoundKana(basis, banned) == [] <==> TotalCount(basis, banned) == 0
  {
    FoundKanaExactly(basis, banned);
    TotalCountPositive(basis, banned);
    if TotalCount(basis, banned) > 0 {
      var i :| 0 <= i < |banned| && IsSubstring(banned[i], basis);
      assert banned[i] in FoundKana(basis, banned);
    }
    if FoundKana(basis, banned) != [] {
      var x := FoundKana(basis, banned)[0];
      assert x in FoundKana(basis, banned);
      var i :| 0 <= i < |banned| && banned[i] == x;
    }
  }

  /** In reading mode a banned kana in the reading of any single token is
      caught. */
  lemma ReadingModeCatchesToken(text: string, tokenize: Tokenizer, banned: seq<string>, i: nat, k: nat)
    requires i < |banned| && k < |tokenize(text)|
    requires IsSubstring(banned[i], tokenize(text)[k].reading)
    ensures TotalCount(ExtractReading(text, tokenize), banned) > 0
  {
    ReadingHoldsTokenReading(tokenize(text), k);
    SubstringTransitive(banned[i], tokenize(text)[k].reading, ExtractReading(text, tokenize));
    TotalCountPositive(ExtractReading(text, tokenize), banned);
  }

  // ---------------------------------------------------------------------------
  // Longest common subsequence
  // ---------------------------------------------------------------------------

  /** `w` can be obtained from `x` by deleting elements (matched from the end). */
  predicate IsSubsequence(w: seq<string>, x: seq<string>)
    decreases |x|
  {
    w == [] ||
    (x != [] &&
     if w[|w| - 1] == x[|x| - 1] then IsSubsequence(w[..|w| - 1], x[..|x| - 1])
     else IsSubsequence(w, x[..|x| - 1]))
  }

  lemma {:induction false} SubsequenceExtend(w: seq<string>, x: seq<string>, y: string)
    requires IsSubsequence(w, x)
    ensures IsSubsequence(w, x + [y])
    decreases |x|, 1
  {
    assert (x + [y])[..|x|] == x;
    if w != [] && w[|w| - 1] == y {
      SubsequenceDropLast(w, x);
    }
  }

  lemma {:induction false} SubsequenceDropLast(w: seq<string>, x: seq<string>)
    requires w != [] && IsSubsequence(w, x)
    ensures IsSubsequence(w[..|w| - 1], x)
    decreases |x|, 0
  {
    var init, last := x[..|x| - 1], x[|x| - 1];
    assert x == init + [last];
    if w[|w| - 1] != last {
      SubsequenceDropLast(w, init);
    }
    SubsequenceExtend(w[..|w| - 1], init, last);
  }

  lemma {:induction false} SubsequenceReflexive(x: seq<string>)
    ensures IsSubsequence(x, x)
    decreases |x|
  {
    if x != [] {
      SubsequenceReflexive(x[..|x| - 1]);
    }
  }

  function Max(x: nat, y: nat): nat
  {
    if x >= y then x else y
  }

  /** The dynamic-programming recurrence for the LCS length of the prefixes
      a[..i] and b[..j]. */
  function LcsPrefix(a: seq<string>, b: seq<string>, i: nat, j: nat): (r: nat)
    requires i <= |a| && j <= |b|
    ensures r <= i && r <= j
  {
    if i == 0 || j == 0 then 0
    else if a[i - 1] == b[j - 1] then LcsPrefix(a, b, i - 1, j - 1) + 1
    else Max(LcsPrefix(a, b, i, j - 1), LcsPrefix(a, b, i - 1, j))
  }

  function Lcs(a: seq<string>, b: seq<string>): nat
  {
    LcsPrefix(a, b, |a|, |b|)
  }

  /** No common subsequence of the two prefixes is longer than the recurrence. */
  lemma {:induction false} LcsUpperBound(a: seq<string>, b: seq<string>, i: nat, j: nat, w: seq<string>)
    requires i <= |a| && j <= |b|
    requires IsSubsequence(w, a[..i]) && IsSubsequence(w, b[..j])
    ensures |w| <= LcsPrefix(a, b, i, j)
    decreases i + j
  {
    if w != [] {
      assert a[..i][..i - 1] == a[..i - 1];
      assert b[..j][..j - 1] == b[..j - 1];
      var x := w[|w| - 1];
      if a[i - 1] == b[j - 1] {
        if x == a[i - 1] {
          LcsUpperBound(a, b, i - 1, j - 1, w[..|w| - 1]);
        } else {
          LcsUpperBound(a, b, i - 1, j - 1, w);
        }
      } else if x != a[i - 1] {
        LcsUpperBound(a, b, i - 1, j, w);
      } else {
        LcsUpperBound(a, b, i, j - 1, w);
      }
    }
  }

  /** Some common subsequence of the two prefixes reaches the recurrence. */
  lemma {:induction false} LcsAchieved(a: seq<string>, b: seq<string>, i: nat, j: nat) returns (w: seq<string>)
    requires i <= |a| && j <= |b|
    ensures |w| == LcsPrefix(a, b, i, j)
    ensures IsSubsequence(w, a[..i]) && IsSubsequence(w, b[..j])
    decreases i + j
  {
    if i == 0 || j == 0 {
      w := [];
    } else {
      assert a[..i] == a[..i - 1] + [a[i - 1]];
      assert b[..j] == b[..j - 1] + [b[j - 1]];
      if a[i - 1] == b[j - 1] {
        var v := LcsAchieved(a, b, i - 1, j - 1);
        w := v + [a[i - 1]];
        assert w[..|w| - 1] == v;
      } else if LcsPrefix(a, b, i, j - 1) >= LcsPrefix(a, b, i - 1, j) {
        w := LcsAchieved(a, b, i, j - 1);
        SubsequenceExtend(w, b[..j - 1], b[j - 1]);
      } else {
        w := LcsAchieved(a, b, i - 1, j);
        SubsequenceExtend(w, a[..i - 1], a[i - 1]);
      }
    }
  }

  /** The first `rows` rows of the table hold the recurrence. */
  ghost predicate TableFilled(dp: array2<nat>, a: seq<string>, b: seq<string>, rows: nat)
    reads dp
    requires dp.Length0 == |a| + 1 && dp.Length1 == |b| + 1 && rows <= |a| + 1
  {
    forall p, q :: 0 <= p < rows && 0 <= q <= |b| ==> dp[p, q] == LcsPrefix(a, b, p, q)
  }

  /** The LCS length over token sequences, filled row by row into an
      (n+1) x (m+1) table whose first row and column stay 0. */
  method LcsLength(a: seq<string>, b: seq<string>) returns (length: nat)
    ensures length == Lcs(a, b)
  {
    var n, m := |a|, |b|;
    var dp := new nat[n + 1, m + 1]((_, _) => 0);
    for i := 1 to n + 1
      invariant TableFilled(dp, a, b, i)
      invariant forall p :: i <= p <= n ==> dp[p, 0] == 0
    {
      FillRow(dp, a, b, i);
    }
    return dp[n, m];
  }

  /** One pass of the inner loop: row `i` from row `i - 1`, left to right. */
  method FillRow(dp: array2<nat>, a: seq<string>, b: seq<string>, i: nat)
    requires dp.Length0 == |a| + 1 && dp.Length1 == |b| + 1 && 1 <= i <= |a|
    requires TableFilled(dp, a, b, i) && dp[i, 0] == 0
    modifies dp
    ensures TableFilled(dp, a, b, i + 1)
    ensures forall p, q :: 0 <= p < dp.Length0 && 0 <= q < dp.Length1 && p != i ==> dp[p, q] == old(dp[p, q])
  {
    var ai := a[i - 1];
    for j := 1 to |b| + 1
      invariant TableFilled(dp, a, b, i)
      invariant forall q :: 0 <= q < j ==> dp[i, q] == LcsPrefix(a, b, i, q)
      invariant forall p, q :: 0 <= p < dp.Length0 && 0 <= q < dp.Length1 && p != i ==> dp[p, q] == old(dp[p, q])
    {
      if ai == b[j - 1] {
        dp[i, j] := dp[i - 1, j - 1] + 1;
      } else {
        dp[i, j] := if dp[i, j - 1] >= dp[i - 1, j] then dp[i, j - 1] else dp[i - 1, j];
      }
    }
  }

  // ---------------------------------------------------------------------------
  // VRR
  // ---------------------------------------------------------------------------

  /** The number of positions at which two equally long sequences differ. */
  function Mismatches(o: seq<string>, r: seq<string>): (k: nat)
    requires |o| == |r|
    ensures k <= |o|
    ensures k == 0 <==> o == r
  {
    if o == [] then 0
    else
      var rest := Mismatches(o[1..], r[1..]);
      assert o == [o[0]] + o[1..] && r == [r[0]] + r[1..];
      (if o[0] != r[0] then 1 else 0) + rest
  }

  /** VRR over content-token surfaces: positional when the lengths agree,
      otherwise the share of original tokens outside a longest common
      subsequence; 0 when the original has no tokens. */
  function Vrr(orig: seq<string>, rew: seq<string>): real
  {
    var total := |orig|;
    if total == 0 then 0.0
    else if |orig| == |rew| then Mismatches(orig, rew) as real / total as real
    else
      var replaced := if total - Lcs(orig, rew) > 0 then total - Lcs(orig, rew) else 0;
      replaced as real / total as real
  }

  method ComputeVrr(originalText: string, rewrittenText: string, tokenize: Tokenizer) returns (vrr: real)
    ensures vrr == Vrr(ContentSurfaces(originalText, tokenize), ContentSurfaces(rewrittenText, tokenize))
  {
    var origSurfaces := ContentSurfaces(originalText, tokenize);
    var rewSurfaces := ContentSurfaces(rewrittenText, tokenize);
    var total := |origSurfaces|;
    if total == 0 {
      return 0.0;
    }
    if |origSurfaces| == |rewSurfaces| {
      var replaced := Mismatches(origSurfaces, rewSurfaces);
      return replaced as real / total as real;
    }
    var lcsLen := LcsLength(origSurfaces, rewSurfaces);
    var replaced := if total - lcsLen > 0 then total - lcsLen else 0;
    return replaced as real / total as real;
  }

  lemma RatioBounds(k: int, total: nat)
    requires 0 <= k <= total && total > 0
    ensures 0.0 <= k as real / total as real <= 1.0
    ensures k as real / total as real == 0.0 <==> k == 0
    ensures k as real / total as real == 1.0 <==> k == total
  {
  }

  /** VRR lies in [0, 1]. */
  lemma VrrBounds(orig: seq<string>, rew: seq<string>)
    ensures 0.0 <= Vrr(orig, rew) <= 1.0
  {
    if |orig| > 0 {
      if |orig| == |rew| {
        RatioBounds(Mismatches(orig, rew), |orig|);
      } else {
        var replaced := if |orig| - Lcs(orig, rew) > 0 then |orig| - Lcs(orig, rew) else 0;
        RatioBounds(replaced, |orig|);
      }
    }
  }

  /** With equal lengths, VRR is 0 exactly when nothing was replaced. */
  lemma VrrPositionalZero(orig: seq<string>, rew: seq<string>)
    requires |orig| == |rew| && orig != []
    ensures Vrr(orig, rew) == 0.0 <==> orig == rew
  {
    RatioBounds(Mismatches(orig, rew), |orig|);
  }

  /** With different lengths, VRR is 0 exactly when every original token was
      kept in order (the original is a subsequence of the rewrite). */
  lemma VrrZeroIffKept(orig: seq<string>, rew: seq<string>)
    requires |orig| != |rew| && orig != []
    ensures Vrr(orig, rew) == 0.0 <==> IsSubsequence(orig, rew)
  {
    var replaced := |orig| - Lcs(orig, rew);
    RatioBounds(replaced, |orig|);
    assert orig[..|orig|] == orig && rew[..|rew|] == rew;
    if IsSubsequence(orig, rew) {
      SubsequenceReflexive(orig);
      LcsUpperBound(orig, rew, |orig|, |rew|, orig);
    }
    if Vrr(orig, rew) == 0.0 {
      var w := LcsAchieved(orig, rew, |orig|, |rew|);
      SubsequenceFull(w, orig);
    }
  }

  /** A subsequence as long as the sequence is the sequence itself. */
  lemma {:induction false} SubsequenceFull(w: seq<string>, x: seq<string>)
    requires IsSubsequence(w, x) && |w| == |x|
    ensures w == x
    decreases |x|
  {
    if x != [] {
      var init := x[..|x| - 1];
      if w[|w| - 1] != x[|x| - 1] {
        SubsequenceShorter(w, init);
        assert false;
      }
      SubsequenceFull(w[..|w| - 1], init);
      assert w == w[..|w| - 1] + [w[|w| - 1]];
      assert x == init + [x[|x| - 1]];
    }
  }

  lemma {:induction false} SubsequenceShorter(w: seq<string>, x: seq<string>)
    requires IsSubsequence(w, x)
    ensures |w| <= |x|
    decreases |x|
  {
    if w != [] {
      if w[|w| - 1] == x[|x| - 1] {
        SubsequenceShorter(w[..|w| - 1], x[..|x| - 1]);
      } else {
        SubsequenceShorter(w, x[..|x| - 1]);
      }
    }
  }

  // ---------------------------------------------------------------------------
  // Diversity metrics
  // ---------------------------------------------------------------------------

  /** The set of distinct elements. */
  function Distinct<T(==)>(xs: seq<T>): set<T>
  {
    set x | x in xs
  }

  predicate AllDistinct<T(==)>(xs: seq<T>)
  {
    forall i, j :: 0 <= i < j < |xs| ==> xs[i] != xs[j]
  }

  /** There are at most as many distinct elements as elements, and as many
      exactly when no element repeats. */
  lemma {:induction false} DistinctCount<T>(xs: seq<T>)
    ensures |Distinct(xs)| <= |xs|
    ensures |Distinct(xs)| == |xs| <==> AllDistinct(xs)
    decreases |xs|
  {
    if xs != [] {
      var init, last := xs[..|xs| - 1], xs[|xs| - 1];
      DistinctCount(init);
      assert xs == init + [last];
      assert Distinct(xs) == Distinct(init) + {last};
      if last in init {
        var j :| 0 <= j < |init| && init[j] == last;
        assert xs[j] == xs[|xs| - 1];
        assert Distinct(xs) == Distinct(init);
      } else {
        assert last !in Distinct(init);
        if AllDistinct(init) {
          forall i, j | 0 <= i < j < |xs| ensures xs[i] != xs[j] {
            if j < |xs| - 1 {
              assert xs[i] == init[i] && xs[j] == init[j];
            } else {
              assert xs[i] == init[i];
            }
          }
        }
        if AllDistinct(xs) {
          forall i, j | 0 <= i < j < |init| ensures init[i] != init[j] {
            assert xs[i] == init[i] && xs[j] == init[j];
          }
        }
      }
    }
  }

  /** Distinct surfaces over surfaces; 0 when there are none. */
  function Ttr(surfaces: seq<string>): real
  {
    if |surfaces| == 0 then 0.0
    else |Distinct(surfaces)| as real / |surfaces| as real
  }

  function ComputeTtr(text: string, tokenize: Tokenizer): real
  {
    Ttr(ContentSurfaces(text, tokenize))
  }

  /** TTR lies in (0, 1] for a non-empty text, and is 1 exactly when no
      surface repeats. */
  lemma TtrBounds(surfaces: seq<string>)
    requires surfaces != []
    ensures 0.0 < Ttr(surfaces) <= 1.0
    ensures Ttr(surfaces) == 1.0 <==> AllDistinct(surfaces)
  {
    DistinctCount(surfaces);
    assert surfaces[0] in Distinct(surfaces);
    RatioBounds(|Distinct(surfaces)|, |surfaces|);
  }

  /** The n-grams of a sequence, left to right. */
  function Ngrams(s: seq<string>, n: nat): (r: seq<seq<string>>)
    requires n <= |s|
    ensures |r| == |s| - n + 1
    ensures forall i :: 0 <= i < |r| ==> r[i] == s[i..i + n]
  {
    seq(|s| - n + 1, i requires 0 <= i < |s| - n + 1 => s[i..i + n])
  }

  /** Occurrences beyond the first, over all n-grams, per n-gram; 0 when
      there are fewer than n surfaces. */
  function NgramRate(s: seq<string>, n: nat): real
  {
    if |s| < n then 0.0
    else
      var grams := Ngrams(s, n);
      (|grams| - |Distinct(grams)|) as real / |grams| as real
  }

  /** The rate lies in [0, 1), and is 0 exactly when no n-gram repeats. */
  lemma NgramRateBounds(s: seq<string>, n: nat)
    requires n <= |s|
    ensures 0.0 <= NgramRate(s, n) < 1.0
    ensures NgramRate(s, n) == 0.0 <==> AllDistinct(Ngrams(s, n))
  {
    var grams := Ngrams(s, n);
    DistinctCount(grams);
    assert grams[0] in Distinct(grams);
    RatioBounds(|grams| - |Distinct(grams)|, |grams|);
  }

  /** The values of `counts` over `keys`, summed. */
  function SumCounts<T(==)>(keys: seq<T>, counts: map<T, nat>): int
    requires forall i :: 0 <= i < |keys| ==> keys[i] in counts
    decreases |keys|
  {
    if keys == [] then 0
    else SumCounts(keys[..|keys| - 1], counts) + counts[keys[|keys| - 1]]
  }

  /** The counts above 1, less one each, over `keys`, summed. */
  function Excess<T(==)>(keys: seq<T>, counts: map<T, nat>): int
    requires forall i :: 0 <= i < |keys| ==> keys[i] in counts
    decreases |keys|
  {
    if keys == [] then 0
    else
      var c := counts[keys[|keys| - 1]];
      Excess(keys[..|keys| - 1], counts) + (if c > 1 then c - 1 else 0)
  }

  lemma {:induction false} SumCountsUnaffected<T>(keys: seq<T>, counts: map<T, nat>, g: T, v: nat)
    requires forall i :: 0 <= i < |keys| ==> keys[i] in counts
    requires g !in keys
    ensures SumCounts(keys, counts[g := v]) == SumCounts(keys, counts)
    decreases |keys|
  {
    if keys != [] {
      SumCountsUnaffected(keys[..|keys| - 1], counts, g, v);
    }
  }

  lemma {:induction false} SumCountsBump<T>(keys: seq<T>, counts: map<T, nat>, g: T)
    requires forall i :: 0 <= i < |keys| ==> keys[i] in counts
    requires AllDistinct(keys) && g in keys
    ensures SumCounts(keys, counts[g := counts[g] + 1]) == SumCounts(keys, counts) + 1
    decreases |keys|
  {
    var init := keys[..|keys| - 1];
    assert AllDistinct(init);
    if keys[|keys| - 1] == g {
      assert g !in init;
      SumCountsUnaffected(init, counts, g, counts[g] + 1);
    } else {
      assert keys == init + [keys[|keys| - 1]];
      SumCountsBump(init, counts, g);
    }
  }

  lemma {:induction false} ExcessSum<T>(keys: seq<T>, counts: map<T, nat>)
    requires forall i :: 0 <= i < |keys| ==> keys[i] in counts && counts[keys[i]] >= 1
    ensures Excess(keys, counts) + |keys| == SumCounts(keys, counts)
    decreases |keys|
  {
    if keys != [] {
      ExcessSum(keys[..|keys| - 1], counts);
    }
  }

  /** `counts` and `keys` describe the n-grams `seen`: one key per distinct
      n-gram, in insertion order, mapped to its number of occurrences. */
  ghost predicate Tally<T>(counts: map<T, nat>, keys: seq<T>, seen: seq<T>)
  {
    && AllDistinct(keys)
    && (forall i :: 0 <= i < |seen| ==> seen[i] in keys)
    && (forall g :: g in counts ==> g in seen && counts[g] == multiset(seen)[g])
    && (forall i :: 0 <= i < |keys| ==> keys[i] in counts && counts[keys[i]] >= 1)
    && SumCounts(keys, counts) == |seen|
  }

  /** One step of the counting loop keeps the tally: a new n-gram gets a
      key and a count of one, a known one has its count raised. */
  lemma TallyStep<T>(counts: map<T, nat>, keys: seq<T>, seen: seq<T>, ng: T,
                     counts': map<T, nat>, keys': seq<T>)
    requires Tally(counts, keys, seen)
    requires counts' == counts[ng := (if ng in counts then counts[ng] else 0) + 1]
    requires keys' == if ng in counts then keys else keys + [ng]
    ensures Tally(counts', keys', seen + [ng])
  {
    var seen' := seen + [ng];
    assert multiset(seen') == multiset(seen) + multiset{ng};
    forall g | g in counts'
      ensures g in seen' && counts'[g] == multiset(seen')[g]
    {
      if g != ng {
        assert g in seen;
      }
    }
    forall i | 0 <= i < |seen'|
      ensures seen'[i] in keys'
    {
      if i < |seen| {
        assert seen'[i] == seen[i];
      }
    }
    if ng in counts {
      SumCountsBump(keys, counts, ng);
      assert counts' == counts[ng := counts[ng] + 1];
      assert SumCounts(keys', counts') == |seen'|;
    } else {
      assert ng !in keys;
      SumCountsUnaffected(keys, counts, ng, 1);
      assert keys'[..|keys|] == keys;
      assert SumCounts(keys', counts') == SumCounts(keys, counts') + 1;
      forall i, j | 0 <= i < j < |keys'|
        ensures keys'[i] != keys'[j]
      {
        if j < |keys| {
          assert keys'[i] == keys[i] && keys'[j] == keys[j];
        } else {
          assert keys'[i] == keys[i];
        }
      }
    }
    forall i | 0 <= i < |keys'|
      ensures keys'[i] in counts' && counts'[keys'[i]] >= 1
    {
      if i < |keys| {
        assert keys'[i] == keys[i];
      }
    }
  }

  /** The counting loop: one map entry per distinct n-gram, holding its
      number of occurrences, with the keys in insertion order. */
  method CountNgrams<T(==)>(ngrams: seq<T>) returns (counts: map<T, nat>, keys: seq<T>)
    ensures Tally(counts, keys, ngrams)
  {
    counts, keys := map[], [];
    for k := 0 to |ngrams|
      invariant Tally(counts, keys, ngrams[..k])
    {
      var ng := ngrams[k];
      ghost var before, beforeKeys := counts, keys;
      if ng !in counts {
        keys := keys + [ng];
      }
      counts := counts[ng := (if ng in counts then counts[ng] else 0) + 1];
      TallyStep(before, beforeKeys, ngrams[..k], ng, counts, keys);
      assert ngrams[..k + 1] == ngrams[..k] + [ng];
    }
    assert ngrams[..|ngrams|] == ngrams;
  }

  /** Summed over a tally, the counts above one (less one each) are the
      occurrences beyond the first of every distinct element. */
  lemma TallyRepeated<T>(counts: map<T, nat>, keys: seq<T>, seen: seq<T>)
    requires Tally(counts, keys, seen)
    ensures Excess(keys, counts) == |seen| - |Distinct(seen)|
  {
    ExcessSum(keys, counts);
    DistinctCount(keys);
    assert Distinct(keys) == Distinct(seen);
  }

  /** The summing loop: the counts above one, less one each, in key order. */
  method SumRepeated<T(==)>(counts: map<T, nat>, keys: seq<T>) returns (repeated: int)
    requires forall i :: 0 <= i < |keys| ==> keys[i] in counts
    ensures repeated == Excess(keys, counts)
  {
    repeated := 0;
    for i := 0 to |keys|
      invariant repeated == Excess(keys[..i], counts)
    {
      assert keys[..i + 1][..i] == keys[..i];
      var c := counts[keys[i]];
      if c > 1 {
        repeated := repeated + (c - 1);
      }
    }
    assert keys[..|keys|] == keys;
  }

  /** The n-gram repetition rate of a text. */
  method NgramRepetitionRate(text: string, n: nat, tokenize: Tokenizer) returns (rate: real)
    ensures rate == NgramRate(ContentSurfaces(text, tokenize), n)
  {
    var surfaces := ContentSurfaces(text, tokenize);
    if |surfaces| < n {
      return 0.0;
    }
    var ngrams := Ngrams(surfaces, n);
    var total := |ngrams|;
    var counts, keys := CountNgrams(ngrams);
    var repeated := SumRepeated(counts, keys);
    TallyRepeated(counts, keys, ngrams);
    rate := if total > 0 then repeated as real / total as real else 0.0;
  }
}
