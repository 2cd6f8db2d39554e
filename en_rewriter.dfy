/** The English rewriter: a violating token is replaced by the WordNet or
    curated synonym whose contextual embedding is most similar to the
    original's, if that similarity reaches a threshold; the sentence is then
    rebuilt around the replaced tokens.

    The embedding model and the cosine similarity are one oracle, `Score`,
    applied to the two texts that are embedded; `None` stands for a
    similarity computation that raised and was skipped. */
module EnRewriter {
  import opened Wrappers
  import opened Text
  import opened Utils
  import opened EnTokenizer

  // ---------------------------------------------------------------------------
  // Candidate pool
  // ---------------------------------------------------------------------------

  /** Hand-written replacements for frequent words, keyed by lower case. */
  const CommonReplacements: map<string, seq<string>> := map[
    "the" := ["a", "this", "that", "such"],
    "how" := ["what", "why", "when"],
    "you" := ["we", "they", "people"],
    "today" := ["now", "currently", "this day", "present"],
    "world" := ["earth", "planet", "globe", "universe"],
    "hello" := ["hi", "hey", "greetings"],
    "and" := ["plus", "with", "also"],
    "or" := ["either", "maybe"],
    "to" := ["toward", "into"],
    "of" := ["from", "about"],
    "in" := ["at", "on", "within"],
    "for" := ["toward", "about"],
    "with" := ["using", "via"],
    "by" := ["via", "through"],
    "programming" := ["coding", "development", "software"],
    "artificial" := ["fake", "synthetic", "man-made"],
    "intelligence" := ["smarts", "brains", "wisdom"]
  ]

  /** The curated replacements of a word, looked up in lower case. */
  function Curated(word: string): seq<string>
  {
    if Lower(word) in CommonReplacements then CommonReplacements[Lower(word)] else []
  }

  /** Lower-cases every entry of a list. */
  function LowerAll(xs: seq<string>): (r: seq<string>)
    ensures |r| == |xs| && forall i :: 0 <= i < |xs| ==> r[i] == Lower(xs[i])
  {
    seq(|xs|, i requires 0 <= i < |xs| => Lower(xs[i]))
  }

  /** A word violates the constraint when its lower case contains a
      lower-cased banned entry. */
  predicate Violates(word: string, banned: seq<string>)
  {
    ContainsBanned(Lower(word), LowerAll(banned))
  }

  /** Each distinct entry once, in order of first occurrence. */
  function Dedupe(xs: seq<string>): (r: seq<string>)
    ensures NoDuplicates(r)
    ensures forall s :: s in r <==> s in xs
  {
    if xs == [] then []
    else
      var rest := Dedupe(xs[..|xs| - 1]);
      var last := xs[|xs| - 1];
      assert xs == xs[..|xs| - 1] + [last];
      if last in rest then rest else rest + [last]
  }

  /** A candidate may be proposed: it does not violate the constraint and was
      not already tried, both compared in lower case. */
  predicate Admissible(s: string, banned: seq<string>, failed: seq<string>)
  {
    !Violates(s, banned) && Lower(s) !in LowerAll(failed)
  }

  /** The admissible entries of the pool, in pool order. */
  function ValidSynonyms(pool: seq<string>, banned: seq<string>, failed: seq<string>): (r: seq<string>)
    ensures forall s :: s in r <==> s in pool && Admissible(s, banned, failed)
  {
    if pool == [] then []
    else
      var rest := ValidSynonyms(pool[..|pool| - 1], banned, failed);
      var last := pool[|pool| - 1];
      assert pool == pool[..|pool| - 1] + [last];
      if Admissible(last, banned, failed) then rest + [last] else rest
  }

  /** Every replacement the lookup can consider for `word`: its WordNet
      synonyms and its curated replacements. */
  ghost function Candidates(word: string, posTag: string, synsets: Synsets): set<string>
  {
    SynonymSet(Flatten(synsets(word, LookupPos(posTag))), word) + (set s | s in Curated(word))
  }

  // ---------------------------------------------------------------------------
  // Similarity
  // ---------------------------------------------------------------------------

  /** Embedding model plus cosine similarity, on the two embedded texts. */
  type Score = (string, string) -> Option<real>

  /** The text embedded for a word: its context when there is one. */
  function EmbedText(word: string, context: string): (r: string)
    ensures context != [] ==> r == context
    ensures context == [] ==> r == word
  {
    if context != [] then context else word
  }

  /** The similarity of a synonym to the original word: the original's
      context against the same context with the first occurrence of the
      original replaced by the synonym. */
  function Similarity(score: Score, original: string, context: string, synonym: string): Option<real>
  {
    score(EmbedText(original, context), EmbedText(synonym, ReplaceFirst(context, original, synonym)))
  }

  /** When the context does not hold the original word verbatim, every
      synonym is compared on the unchanged context, so no candidate is
      preferred over another by its meaning. */
  lemma AbsentWordComparesContextWithItself(original: string, context: string, synonym: string)
    requires context != [] && FindFrom(context, original, 0) == -1
    ensures EmbedText(synonym, ReplaceFirst(context, original, synonym)) == EmbedText(original, context)
  {
  }

  /** What a lookup may return: the original word at 0.0, or an admissible
      candidate with a positive similarity, and in either case a similarity
      that no admissible candidate beats. */
  ghost predicate IsBestSynonym(originalWord: string, context: string, banned: seq<string>, failed: seq<string>,
                                posTag: string, synsets: Synsets, score: Score, best: string, similarity: real)
  {
    similarity >= 0.0
    && ((best == originalWord && similarity == 0.0)
        || (best in Candidates(originalWord, posTag, synsets) && Admissible(best, banned, failed)
            && Similarity(score, originalWord, context, best) == Some(similarity) && similarity > 0.0))
    && forall s :: s in Candidates(originalWord, posTag, synsets) && Admissible(s, banned, failed)
                   && Similarity(score, originalWord, context, s).Some?
                   ==> Similarity(score, originalWord, context, s).value <= similarity
  }

  /** The synonym with the highest positive similarity among the admissible
      candidates, or the original word with similarity 0.0 when there is
      none. The candidate list is deduplicated; ties keep the candidate met
      first. */
  method FindBestSynonym(originalWord: string, context: string, banned: seq<string>, failed: seq<string>,
                         posTag: string, synsets: Synsets, score: Score)
    returns (best: string, similarity: real)
    ensures IsBestSynonym(originalWord, context, banned, failed, posTag, synsets, score, best, similarity)
  {
    var synonyms := GetSynonyms(originalWord, posTag, synsets);
    var pool := Dedupe(synonyms + Curated(originalWord));
    assert forall s :: s in Candidates(originalWord, posTag, synsets) <==> s in pool by {
      forall s ensures s in Candidates(originalWord, posTag, synsets) <==> s in pool {
        assert s in synonyms + Curated(originalWord) <==> s in synonyms || s in Curated(originalWord);
      }
    }
    if pool == [] {
      return originalWord, 0.0;
    }
    var valid := ValidSynonyms(pool, banned, failed);
    if valid == [] {
      return originalWord, 0.0;
    }
    best, similarity := MostSimilar(valid, originalWord, s => Similarity(score, originalWord, context, s));
  }

  /** The scan over the admissible candidates: a candidate replaces the
      current best only when its rating is strictly greater, starting from
      `fallback` at 0.0. */
  method MostSimilar(valid: seq<string>, fallback: string, rate: string -> Option<real>)
    returns (best: string, similarity: real)
    ensures similarity >= 0.0
    ensures (best == fallback && similarity == 0.0) || (best in valid && rate(best) == Some(similarity) && similarity > 0.0)
    ensures forall s :: s in valid && rate(s).Some? ==> rate(s).value <= similarity
  {
    best, similarity := fallback, 0.0;
    for k := 0 to |valid|
      invariant similarity >= 0.0
      invariant (best == fallback && similarity == 0.0) || (best in valid && rate(best) == Some(similarity) && similarity > 0.0)
      invariant forall j :: 0 <= j < k && rate(valid[j]).Some? ==> rate(valid[j]).value <= similarity
    {
      var s := rate(valid[k]);
      if s.Some? && s.value > similarity {
        best, similarity := valid[k], s.value;
      }
    }
    forall s | s in valid && rate(s).Some?
      ensures rate(s).value <= similarity
    {
      var j :| 0 <= j < |valid| && valid[j] == s;
    }
  }

  // ---------------------------------------------------------------------------
  // Sentence reconstruction
  // ---------------------------------------------------------------------------

  function Surfaces(tokens: seq<EnToken>): (r: seq<string>)
    ensures |r| == |tokens| && forall k :: 0 <= k < |tokens| ==> r[k] == tokens[k].surface
  {
    seq(|tokens|, k requires 0 <= k < |tokens| => tokens[k].surface)
  }

  /** Replaces the occurrence of `surface` that starts at `p` (found in lower
      case) by `replacement`. */
  function SpliceAt(result: string, p: nat, surface: string, replacement: string): (r: string)
    requires p + |surface| <= |result|
  {
    result[..p] + replacement + result[p + |surface|..]
  }

  /** The first position at or after `offset` where the token occurs in the
      text, both lower-cased; -1 when it does not occur. */
  function Locate(result: string, surface: string, offset: nat): (p: int)
    ensures p == -1 || (offset <= p && p + |surface| <= |result|)
  {
    FindFrom(Lower(result), Lower(surface), offset)
  }

  /** Reconstruction as written: the changed tokens, last first, each
      spliced in at the FIRST occurrence of its surface in the whole current
      text, because the search offset stays 0. Processes indices i-1 down
      to 0. */
  function ReplaceBackward(result: string, surfaces: seq<string>, news: seq<string>, i: nat): string
    requires |news| == |surfaces| && i <= |surfaces|
    decreases i
  {
    if i == 0 then result
    else ReplaceBackward(SpliceFirst(result, surfaces[i - 1], news[i - 1]), surfaces, news, i - 1)
  }

  /** One step as written: a changed token is spliced in at its first
      occurrence in the text, searched from the start. */
  function SpliceFirst(result: string, surface: string, replacement: string): string
  {
    var p := Locate(result, surface, 0);
    if surface == replacement || p == -1 then result else SpliceAt(result, p, surface, replacement)
  }

  function ReconstructAsWritten(original: string, surfaces: seq<string>, news: seq<string>): string
  {
    if |surfaces| != |news| then Join(" ", news)
    else ReplaceBackward(original, surfaces, news, |surfaces|)
  }

  /** The reconstruction loop as it stands in the source. */
  method ReconstructSentenceAsWritten(original: string, tokens: seq<EnToken>, newTokens: seq<string>)
    returns (result: string)
    ensures result == ReconstructAsWritten(original, Surfaces(tokens), newTokens)
  {
    var surfaces := Surfaces(tokens);
    if |tokens| != |newTokens| {
      return Join(" ", newTokens);
    }
    result := original;
    var offset := 0;
    var i := |tokens|;
    while i > 0
      invariant 0 <= i <= |tokens|
      invariant ReplaceBackward(result, surfaces, newTokens, i) == ReplaceBackward(original, surfaces, newTokens, |tokens|)
    {
      i := i - 1;
      ghost var nextText := SpliceFirst(result, surfaces[i], newTokens[i]);
      if tokens[i].surface != newTokens[i] {
        var p := Locate(result, tokens[i].surface, offset);
        if p != -1 {
          result := SpliceAt(result, p, tokens[i].surface, newTokens[i]);
        }
      }
      assert result == nextText;
    }
  }

  /** With no token changed, the as-written reconstruction returns the
      sentence unchanged. */
  lemma {:induction false} AsWrittenUnchanged(result: string, surfaces: seq<string>, i: nat)
    requires i <= |surfaces|
    ensures ReplaceBackward(result, surfaces, surfaces, i) == result
  {
    if i > 0 {
      AsWrittenUnchanged(result, surfaces, i - 1);
    }
  }

  /** A string without upper-case letters is its own lower case. */
  lemma LowerOfLower(s: string)
    requires forall i :: 0 <= i < |s| ==> !('A' <= s[i] <= 'Z')
    ensures Lower(s) == s
  {
  }

  /** "as a" tokenized as as, a, with both tokens replaced because both
      hold the banned "a": the replacement "one" for the last token lands at
      the start of "as", after which "as" is no longer found. */
  lemma AsWrittenSplicesInsideEarlierToken()
    ensures ReconstructAsWritten("as a", ["as", "a"], ["so", "one"]) == "ones a"
  {
    ReplacementLandsInFirstToken();
    FirstTokenNoLongerFound();
    var surfaces, news := ["as", "a"], ["so", "one"];
    assert ReplaceBackward("as a", surfaces, news, 2) == ReplaceBackward("ones a", surfaces, news, 1);
    assert ReplaceBackward("ones a", surfaces, news, 1) == ReplaceBackward("ones a", surfaces, news, 0);
  }

  lemma ReplacementLandsInFirstToken()
    ensures SpliceFirst("as a", "a", "one") == "ones a"
  {
    var s := "as a";
    LowerOfLower(s);
    LowerOfLower("a");
    assert s[0..1] == "a";
    assert Locate(s, "a", 0) == 0;
  }

  lemma FirstTokenNoLongerFound()
    ensures SpliceFirst("ones a", "as", "so") == "ones a"
  {
    var t := "ones a";
    LowerOfLower(t);
    LowerOfLower("as");
    assert FindFrom(t, "as", 5) == -1;
    assert t[4..6][0] == ' ' && FindFrom(t, "as", 4) == -1;
    assert t[3..5][0] == 's' && FindFrom(t, "as", 3) == -1;
    assert t[2..4][0] == 'e' && FindFrom(t, "as", 2) == -1;
    assert t[1..3][0] == 'n' && FindFrom(t, "as", 1) == -1;
    assert t[0..2][0] == 'o' && FindFrom(t, "as", 0) == -1;
  }

  /** In that example neither new token holds the banned letter, yet the
      rebuilt sentence does. */
  lemma AsWrittenExampleStillViolates()
    ensures !Violates("so", ["a"]) && !Violates("one", ["a"])
    ensures Violates("ones a", ["a"])
  {
    LowerOfLower("a");
    LowerOfLower("so");
    LowerOfLower("one");
    LowerOfLower("ones a");
    assert LowerAll(["a"]) == ["a"];
    assert OccursAt("a", "ones a", 5);
    CharSubstring('a', "so");
    CharSubstring('a', "one");
  }

  /** Reconstruction, corrected: tokens are located left to right, each
      search starting where the previous token ended, so every token is
      found at its own position. */
  function ReplaceForward(result: string, surfaces: seq<string>, news: seq<string>, offset: nat): string
    requires |news| == |surfaces|
    decreases |surfaces|
  {
    if surfaces == [] then result
    else
      ReplaceForward(StepText(result, surfaces[0], news[0], offset), surfaces[1..], news[1..],
                     StepOffset(result, surfaces[0], news[0], offset))
  }

  /** The text after one token: a changed token found at or after the
      offset is spliced in. */
  function StepText(result: string, surface: string, replacement: string, offset: nat): string
  {
    var p := Locate(result, surface, offset);
    if p == -1 || surface == replacement then result else SpliceAt(result, p, surface, replacement)
  }

  /** The offset after one token: just past the token when it was found. */
  function StepOffset(result: string, surface: string, replacement: string, offset: nat): nat
  {
    var p := Locate(result, surface, offset);
    if p == -1 then offset else p + |replacement|
  }

  function ReconstructInOrder(original: string, surfaces: seq<string>, news: seq<string>): string
  {
    if |surfaces| != |news| then Join(" ", news)
    else ReplaceForward(original, surfaces, news, 0)
  }

  /** The corrected reconstruction loop. */
  method ReconstructSentence(original: string, tokens: seq<EnToken>, newTokens: seq<string>)
    returns (result: string)
    ensures result == ReconstructInOrder(original, Surfaces(tokens), newTokens)
  {
    var surfaces := Surfaces(tokens);
    if |tokens| != |newTokens| {
      return Join(" ", newTokens);
    }
    result := original;
    var offset: nat := 0;
    for i := 0 to |tokens|
      invariant ReplaceForward(result, surfaces[i..], newTokens[i..], offset) == ReplaceForward(original, surfaces, newTokens, 0)
    {
      assert surfaces[i..][1..] == surfaces[i + 1..] && newTokens[i..][1..] == newTokens[i + 1..];
      ghost var nextText := StepText(result, surfaces[i], newTokens[i], offset);
      ghost var nextOffset := StepOffset(result, surfaces[i], newTokens[i], offset);
      var p := Locate(result, tokens[i].surface, offset);
      if p != -1 {
        if tokens[i].surface != newTokens[i] {
          result := SpliceAt(result, p, tokens[i].surface, newTokens[i]);
        }
        offset := p + |newTokens[i]|;
      }
      assert result == nextText && offset == nextOffset;
    }
  }

  /** A sentence laid out as gap, token, gap, ..., token, gap. */
  function Interleave(gaps: seq<string>, xs: seq<string>): string
    requires |gaps| == |xs| + 1
    decreases |xs|
  {
    if xs == [] then gaps[0] else gaps[0] + xs[0] + Interleave(gaps[1..], xs[1..])
  }

  /** Each token is non-empty and its first letter, in lower case, does not
      appear in the gap before it, so a search starting at the gap cannot
      stop early. */
  predicate Separable(gaps: seq<string>, surfaces: seq<string>)
    requires |gaps| == |surfaces| + 1
  {
    forall i :: 0 <= i < |surfaces| ==> surfaces[i] != [] && Lower(surfaces[i])[0] !in Lower(gaps[i])
  }

  /** The search from the start of a gap finds the token right after it. */
  lemma LocateAfterGap(prefix: string, g: string, s: string, rest: string)
    requires s != [] && Lower(s)[0] !in Lower(g)
    ensures Locate(prefix + g + s + rest, s, |prefix|) == |prefix| + |g|
  {
    var text := prefix + g + s + rest;
    var lt := Lower(text);
    var ls := Lower(s);
    LowerAppend(prefix + g + s, rest);
    LowerAppend(prefix + g, s);
    LowerAppend(prefix, g);
    assert lt == Lower(prefix) + Lower(g) + ls + Lower(rest);
    var q := |prefix| + |g|;
    assert lt[q..q + |ls|] == ls;
    assert OccursAt(ls, lt, q);
    forall i | |prefix| <= i < q
      ensures !OccursAt(ls, lt, i)
    {
      assert lt[i] == Lower(g)[i - |prefix|];
      assert lt[i] != ls[0];
      if i + |ls| <= |lt| {
        assert lt[i..i + |ls|][0] == lt[i];
      }
    }
    FindFromFirst(lt, ls, |prefix|);
    var r := FindFrom(lt, ls, |prefix|);
    assert r == q;
  }

  /** The corrected reconstruction puts every new token in the place of the
      old one and keeps every gap. */
  lemma {:induction false} ForwardRebuilds(prefix: string, gaps: seq<string>, surfaces: seq<string>, news: seq<string>)
    requires |gaps| == |surfaces| + 1 && |news| == |surfaces|
    requires Separable(gaps, surfaces)
    ensures ReplaceForward(prefix + Interleave(gaps, surfaces), surfaces, news, |prefix|) == prefix + Interleave(gaps, news)
    decreases |surfaces|
  {
    if surfaces != [] {
      var g, s, n := gaps[0], surfaces[0], news[0];
      var rest := Interleave(gaps[1..], surfaces[1..]);
      var text := prefix + Interleave(gaps, surfaces);
      assert text == (prefix + g) + s + rest by {
        SeqAssoc4(prefix, g, s, rest);
      }
      LocateAfterGap(prefix, g, s, rest);
      var next := ForwardStep(prefix + g, s, n, rest, surfaces, news, |prefix|);
      SeparableTail(gaps, surfaces);
      ForwardRebuilds(prefix + g + n, gaps[1..], surfaces[1..], news[1..]);
      assert prefix + g + n + Interleave(gaps[1..], news[1..]) == prefix + Interleave(gaps, news) by {
        SeqAssoc4(prefix, g, n, Interleave(gaps[1..], news[1..]));
      }
    }
  }

  lemma SeqAssoc4(a: string, b: string, c: string, d: string)
    ensures a + (b + c + d) == (a + b) + c + d
  {
  }

  lemma SeparableTail(gaps: seq<string>, surfaces: seq<string>)
    requires |gaps| == |surfaces| + 1 && surfaces != [] && Separable(gaps, surfaces)
    ensures Separable(gaps[1..], surfaces[1..])
  {
    forall i | 0 <= i < |surfaces[1..]|
      ensures surfaces[1..][i] != [] && Lower(surfaces[1..][i])[0] !in Lower(gaps[1..][i])
    {
      assert surfaces[1..][i] == surfaces[i + 1] && gaps[1..][i] == gaps[i + 1];
    }
  }

  /** One step of the corrected reconstruction, at a token found where it
      stands: the result continues from the text with the token replaced. */
  lemma ForwardStep(a: string, s: string, n: string, rest: string, surfaces: seq<string>, news: seq<string>, offset: nat)
    returns (next: string)
    requires surfaces != [] && |news| == |surfaces| && surfaces[0] == s && news[0] == n
    requires Locate(a + s + rest, s, offset) == |a|
    ensures next == a + n + rest
    ensures ReplaceForward(a + s + rest, surfaces, news, offset) == ReplaceForward(next, surfaces[1..], news[1..], |a + n|)
  {
    next := a + n + rest;
    SpliceMiddle(a, s, n, rest);
  }

  lemma SpliceMiddle(a: string, s: string, n: string, rest: string)
    ensures SpliceAt(a + s + rest, |a|, s, n) == a + n + rest
  {
    var text := a + s + rest;
    assert text[..|a|] == a;
    assert text[|a| + |s|..] == rest;
  }

  /** For a separable sentence the corrected reconstruction yields the
      sentence with each token replaced in place. */
  lemma ReconstructInOrderRebuilds(gaps: seq<string>, surfaces: seq<string>, news: seq<string>)
    requires |gaps| == |surfaces| + 1 && |news| == |surfaces|
    requires Separable(gaps, surfaces)
    ensures ReconstructInOrder(Interleave(gaps, surfaces), surfaces, news) == Interleave(gaps, news)
  {
    var text, rebuilt := Interleave(gaps, surfaces), Interleave(gaps, news);
    assert [] + text == text && [] + rebuilt == rebuilt;
    ForwardRebuilds([], gaps, surfaces, news);
    assert ReplaceForward(text, surfaces, news, 0) == rebuilt;
  }

  /** With no token changed, the corrected reconstruction returns the
      sentence unchanged. */
  lemma {:induction false} ForwardUnchanged(result: string, surfaces: seq<string>, offset: nat)
    ensures ReplaceForward(result, surfaces, surfaces, offset) == result
    decreases |surfaces|
  {
    if surfaces != [] {
      assert StepText(result, surfaces[0], surfaces[0], offset) == result;
      ForwardUnchanged(result, surfaces[1..], StepOffset(result, surfaces[0], surfaces[0], offset));
    }
  }

  /** Two tokens separated by one space. */
  lemma SpacedPair(x: string, y: string)
    ensures Interleave(["", " ", ""], [x, y]) == x + " " + y
  {
    var gaps := ["", " ", ""];
    assert gaps[1..] == [" ", ""] && gaps[1..][1..] == [""];
    assert [x, y][1..] == [y] && [y][1..] == [];
    assert Interleave([" ", ""], [y]) == " " + y;
  }

  /** The corrected reconstruction on the sentence of the counterexample. */
  lemma InOrderOnCounterexample()
    ensures ReconstructInOrder("as a", ["as", "a"], ["so", "one"]) == "so one"
  {
    LowerOfLower("as");
    LowerOfLower("a");
    LowerOfLower(" ");
    assert Separable(["", " ", ""], ["as", "a"]);
    ReconstructInOrderRebuilds(["", " ", ""], ["as", "a"], ["so", "one"]);
    SpacedPair("as", "a");
    SpacedPair("so", "one");
    assert "as" + " " + "a" == "as a";
    assert "so" + " " + "one" == "so one";
  }

  // ---------------------------------------------------------------------------
  // Sentence and text rewriting
  // ---------------------------------------------------------------------------

  const MaxRetries: nat := 3

  /** One lookup of the retry loop: the candidate returned and its
      similarity. */
  datatype Lookup = Lookup(candidate: string, similarity: real)

  /** A lookup's candidate is taken when it differs from the token, reaches
      the threshold and does not violate the constraint. */
  predicate Takes(l: Lookup, surface: string, banned: seq<string>, threshold: real)
  {
    l.candidate != surface && l.similarity >= threshold && !Violates(l.candidate, banned)
  }

  /** The failure list after lookups none of which was taken: every
      candidate other than the token itself, in order. */
  function FailedBefore(lookups: seq<Lookup>, surface: string): (r: seq<string>)
    ensures |r| <= |lookups|
    ensures surface !in r
  {
    if lookups == [] then []
    else
      var last := lookups[|lookups| - 1];
      FailedBefore(lookups[..|lookups| - 1], surface) + (if last.candidate != surface then [last.candidate] else [])
  }

  /** Each lookup is a best synonym given the candidates failed before it. */
  ghost predicate LookupsBest(token: EnToken, sentence: string, banned: seq<string>, synsets: Synsets, score: Score,
                              lookups: seq<Lookup>)
    decreases |lookups|
  {
    lookups == []
    || (var n := |lookups| - 1;
        LookupsBest(token, sentence, banned, synsets, score, lookups[..n])
        && IsBestSynonym(token.surface, sentence, banned, FailedBefore(lookups[..n], token.surface), token.pos,
                         synsets, score, lookups[n].candidate, lookups[n].similarity))
  }

  predicate NoneTaken(lookups: seq<Lookup>, surface: string, banned: seq<string>, threshold: real)
  {
    forall j :: 0 <= j < |lookups| ==> !Takes(lookups[j], surface, banned, threshold)
  }

  /** A further lookup, made with the failures so far, keeps the log valid. */
  lemma LookupsBestExtend(token: EnToken, sentence: string, banned: seq<string>, synsets: Synsets, score: Score,
                          lookups: seq<Lookup>, l: Lookup)
    requires LookupsBest(token, sentence, banned, synsets, score, lookups)
    requires IsBestSynonym(token.surface, sentence, banned, FailedBefore(lookups, token.surface), token.pos,
                           synsets, score, l.candidate, l.similarity)
    ensures LookupsBest(token, sentence, banned, synsets, score, lookups + [l])
  {
    assert (lookups + [l])[..|lookups|] == lookups;
  }

  /** How a violating token was resolved: each lookup is a best synonym
      given the candidates already failed, no lookup but the last was taken,
      and either the last was taken and gives the replacement, or all three
      failed and the token stays as it is. */
  ghost predicate ResolvedAs(token: EnToken, sentence: string, banned: seq<string>, threshold: real,
                             synsets: Synsets, score: Score, lookups: seq<Lookup>, replacement: string)
  {
    1 <= |lookups| <= MaxRetries
    && LookupsBest(token, sentence, banned, synsets, score, lookups)
    && NoneTaken(lookups[..|lookups| - 1], token.surface, banned, threshold)
    && if Takes(lookups[|lookups| - 1], token.surface, banned, threshold)
       then replacement == lookups[|lookups| - 1].candidate
       else replacement == token.surface && |lookups| == MaxRetries
  }

  /** A replacement other than the token is a synonym of it that is free of
      banned letters and whose positive similarity reaches the threshold. */
  lemma ResolvedReplacementQualifies(token: EnToken, sentence: string, banned: seq<string>, threshold: real,
                                     synsets: Synsets, score: Score, lookups: seq<Lookup>, replacement: string)
    requires ResolvedAs(token, sentence, banned, threshold, synsets, score, lookups, replacement)
    requires replacement != token.surface
    ensures replacement in Candidates(token.surface, token.pos, synsets) && !Violates(replacement, banned)
    ensures var sim := lookups[|lookups| - 1].similarity;
            Similarity(score, token.surface, sentence, replacement) == Some(sim) && sim >= threshold && sim > 0.0
  {
    var j := |lookups| - 1;
    assert IsBestSynonym(token.surface, sentence, banned, FailedBefore(lookups[..j], token.surface), token.pos,
                         synsets, score, lookups[j].candidate, lookups[j].similarity);
  }

  /** The token stays as it is only when all three lookups failed. */
  lemma KeptOnlyAfterThreeLookups(token: EnToken, sentence: string, banned: seq<string>, threshold: real,
                                  synsets: Synsets, score: Score, lookups: seq<Lookup>)
    requires ResolvedAs(token, sentence, banned, threshold, synsets, score, lookups, token.surface)
    ensures |lookups| == MaxRetries
    ensures NoneTaken(lookups, token.surface, banned, threshold)
  {
    var n := |lookups|;
    assert lookups == lookups[..n - 1] + [lookups[n - 1]];
  }

  /** The next lookup of the retry loop, made with the failures of the
      lookups so far. */
  method NextLookup(token: EnToken, sentence: string, banned: seq<string>, synsets: Synsets, score: Score,
                    lookups: seq<Lookup>, failed: seq<string>)
    returns (l: Lookup)
    requires LookupsBest(token, sentence, banned, synsets, score, lookups)
    requires failed == FailedBefore(lookups, token.surface)
    ensures LookupsBest(token, sentence, banned, synsets, score, lookups + [l])
  {
    var candidate, sim := FindBestSynonym(token.surface, sentence, banned, failed, token.pos, synsets, score);
    l := Lookup(candidate, sim);
    LookupsBestExtend(token, sentence, banned, synsets, score, lookups, l);
  }

  /** A lookup taken after untaken ones resolves the token to its candidate. */
  lemma ResolvedOnTake(token: EnToken, sentence: string, banned: seq<string>, threshold: real,
                       synsets: Synsets, score: Score, before: seq<Lookup>, l: Lookup)
    requires |before| < MaxRetries
    requires LookupsBest(token, sentence, banned, synsets, score, before + [l])
    requires NoneTaken(before, token.surface, banned, threshold)
    requires Takes(l, token.surface, banned, threshold)
    ensures ResolvedAs(token, sentence, banned, threshold, synsets, score, before + [l], l.candidate)
  {
    assert (before + [l])[..|before|] == before;
  }

  /** Three untaken lookups leave the token as it is. */
  lemma ResolvedOnExhaust(token: EnToken, sentence: string, banned: seq<string>, threshold: real,
                          synsets: Synsets, score: Score, lookups: seq<Lookup>)
    requires |lookups| == MaxRetries
    requires LookupsBest(token, sentence, banned, synsets, score, lookups)
    requires NoneTaken(lookups, token.surface, banned, threshold)
    ensures ResolvedAs(token, sentence, banned, threshold, synsets, score, lookups, token.surface)
  {
    assert !Takes(lookups[|lookups| - 1], token.surface, banned, threshold);
    assert forall j :: 0 <= j < |lookups| - 1 ==> lookups[..|lookups| - 1][j] == lookups[j];
  }

  /** An untaken lookup extends the failure list by its candidate unless it
      is the token itself. */
  lemma UntakenRecorded(before: seq<Lookup>, l: Lookup, surface: string, banned: seq<string>, threshold: real)
    requires NoneTaken(before, surface, banned, threshold)
    requires !Takes(l, surface, banned, threshold)
    ensures NoneTaken(before + [l], surface, banned, threshold)
    ensures FailedBefore(before + [l], surface)
            == FailedBefore(before, surface) + (if l.candidate != surface then [l.candidate] else [])
  {
    assert (before + [l])[..|before|] == before;
    forall j | 0 <= j < |before + [l]|
      ensures !Takes((before + [l])[j], surface, banned, threshold)
    {
      if j < |before| {
        assert (before + [l])[j] == before[j];
      }
    }
  }

  /** The replacement of one violating token: up to three lookups, each
      excluding the candidates the earlier ones proposed and rejected. A
      candidate is taken when it differs from the token, reaches the
      threshold and does not violate the constraint. */
  method ResolveToken(token: EnToken, sentence: string, banned: seq<string>, threshold: real,
                      synsets: Synsets, score: Score)
    returns (replacement: string, similarity: real, lookups: seq<Lookup>)
    ensures ResolvedAs(token, sentence, banned, threshold, synsets, score, lookups, replacement)
    ensures similarity == (if replacement == token.surface then 0.0 else lookups[|lookups| - 1].similarity)
  {
    var failed: seq<string> := [];
    replacement := token.surface;
    similarity := 0.0;
    lookups := [];
    for retry := 0 to MaxRetries
      invariant |lookups| == retry
      invariant failed == FailedBefore(lookups, token.surface)
      invariant LookupsBest(token, sentence, banned, synsets, score, lookups)
      invariant NoneTaken(lookups, token.surface, banned, threshold)
    {
      var l := NextLookup(token, sentence, banned, synsets, score, lookups, failed);
      var candidate, sim := l.candidate, l.similarity;
      if candidate != token.surface && sim >= threshold && !Violates(candidate, banned) {
        ResolvedOnTake(token, sentence, banned, threshold, synsets, score, lookups, l);
        replacement, similarity, lookups := candidate, sim, lookups + [l];
        return;
      }
      UntakenRecorded(lookups, l, token.surface, banned, threshold);
      lookups := lookups + [l];
      if candidate != token.surface {
        failed := failed + [candidate];
      }
    }
    ResolvedOnExhaust(token, sentence, banned, threshold, synsets, score, lookups);
  }

  /** Every token paired with what replaces it: a clean token is kept
      without a lookup, a violating one is resolved. */
  ghost predicate ReplacedWell(tokens: seq<EnToken>, news: seq<string>, logs: seq<seq<Lookup>>, sentence: string,
                               banned: seq<string>, threshold: real, synsets: Synsets, score: Score)
  {
    |news| == |tokens| && |logs| == |tokens|
    && forall k :: 0 <= k < |tokens| ==>
         if Violates(tokens[k].surface, banned)
         then ResolvedAs(tokens[k], sentence, banned, threshold, synsets, score, logs[k], news[k])
         else news[k] == tokens[k].surface && logs[k] == []
  }

  lemma ReplacedWellExtend(tokens: seq<EnToken>, news: seq<string>, logs: seq<seq<Lookup>>, sentence: string,
                           banned: seq<string>, threshold: real, synsets: Synsets, score: Score,
                           t: EnToken, replacement: string, log: seq<Lookup>)
    requires ReplacedWell(tokens, news, logs, sentence, banned, threshold, synsets, score)
    requires if Violates(t.surface, banned)
             then ResolvedAs(t, sentence, banned, threshold, synsets, score, log, replacement)
             else replacement == t.surface && log == []
    ensures ReplacedWell(tokens + [t], news + [replacement], logs + [log], sentence, banned, threshold, synsets, score)
  {
    var ts, ns, ls := tokens + [t], news + [replacement], logs + [log];
    forall k | 0 <= k < |ts|
      ensures if Violates(ts[k].surface, banned)
              then ResolvedAs(ts[k], sentence, banned, threshold, synsets, score, ls[k], ns[k])
              else ns[k] == ts[k].surface && ls[k] == []
    {
      if k < |tokens| {
        assert ts[k] == tokens[k] && ns[k] == news[k] && ls[k] == logs[k];
      }
    }
  }

  /** A sentence whose tokens all satisfy the constraint. */
  predicate CleanSentence(sentence: string, banned: seq<string>, backend: Backend)
  {
    forall t :: t in Analyse(sentence, backend) ==> !Violates(t.surface, banned)
  }

  /** A clean sentence comes out as it went in. */
  ghost predicate KeptIfClean(sentence: string, result: string, banned: seq<string>, backend: Backend)
  {
    CleanSentence(sentence, banned, backend) ==> result == sentence
  }

  /** On a clean sentence every token is kept, and the reconstruction as
      written gives the sentence back. */
  lemma CleanKeepsSentence(sentence: string, tokens: seq<EnToken>, news: seq<string>, logs: seq<seq<Lookup>>,
                           banned: seq<string>, threshold: real, synsets: Synsets, score: Score)
    requires ReplacedWell(tokens, news, logs, sentence, banned, threshold, synsets, score)
    requires forall t :: t in tokens ==> !Violates(t.surface, banned)
    ensures news == Surfaces(tokens)
    ensures ReconstructAsWritten(sentence, Surfaces(tokens), news) == sentence
  {
    forall k | 0 <= k < |tokens|
      ensures news[k] == tokens[k].surface
    {
      assert tokens[k] in tokens;
    }
    AsWrittenUnchanged(sentence, news, |news|);
  }

  /** The same holds for the corrected reconstruction. */
  lemma CleanKeepsSentenceInOrder(sentence: string, tokens: seq<EnToken>, news: seq<string>, logs: seq<seq<Lookup>>,
                                  banned: seq<string>, threshold: real, synsets: Synsets, score: Score)
    requires ReplacedWell(tokens, news, logs, sentence, banned, threshold, synsets, score)
    requires forall t :: t in tokens ==> !Violates(t.surface, banned)
    ensures ReconstructInOrder(sentence, Surfaces(tokens), news) == sentence
  {
    CleanKeepsSentence(sentence, tokens, news, logs, banned, threshold, synsets, score);
    ForwardUnchanged(sentence, news, 0);
  }

  /** The rewrite of one sentence: the rebuilt sentence, the new tokens and
      each token's lookups. */
  datatype SentenceRewrite = SentenceRewrite(result: string, newTokens: seq<string>, lookups: seq<seq<Lookup>>)

  /** `rw` is how `rewrite_sentence` treats `sentence`: its tokens replaced
      well and the sentence rebuilt by the reconstruction as written. */
  ghost predicate RewroteSentence(sentence: string, rw: SentenceRewrite, banned: seq<string>, threshold: real,
                                  backend: Backend, synsets: Synsets, score: Score)
  {
    ReplacedWell(Analyse(sentence, backend), rw.newTokens, rw.lookups, sentence, banned, threshold, synsets, score)
    && rw.result == ReconstructAsWritten(sentence, Surfaces(Analyse(sentence, backend)), rw.newTokens)
  }

  /** A rewritten clean sentence is kept. */
  lemma RewroteKeepsClean(sentence: string, rw: SentenceRewrite, banned: seq<string>, threshold: real,
                          backend: Backend, synsets: Synsets, score: Score)
    requires RewroteSentence(sentence, rw, banned, threshold, backend, synsets, score)
    ensures KeptIfClean(sentence, rw.result, banned, backend)
  {
    if CleanSentence(sentence, banned, backend) {
      CleanKeepsSentence(sentence, Analyse(sentence, backend), rw.newTokens, rw.lookups,
                         banned, threshold, synsets, score);
    }
  }

  /** Rewrites one sentence: every violating token is resolved, the others
      kept, and the sentence rebuilt around the new tokens. */
  method RewriteSentence(sentence: string, banned: seq<string>, threshold: real, backend: Backend,
                         synsets: Synsets, score: Score)
    returns (result: string, newTokens: seq<string>, lookups: seq<seq<Lookup>>)
    ensures RewroteSentence(sentence, SentenceRewrite(result, newTokens, lookups), banned, threshold, backend, synsets, score)
    ensures KeptIfClean(sentence, result, banned, backend)
  {
    var tokens := Tokenize(sentence, backend);
    var news: seq<string> := [];
    var logs: seq<seq<Lookup>> := [];
    for i := 0 to |tokens|
      invariant ReplacedWell(tokens[..i], news, logs, sentence, banned, threshold, synsets, score)
    {
      var replacement := tokens[i].surface;
      var log: seq<Lookup> := [];
      if Violates(tokens[i].surface, banned) {
        var similarity;
        replacement, similarity, log := ResolveToken(tokens[i], sentence, banned, threshold, synsets, score);
      }
      ReplacedWellExtend(tokens[..i], news, logs, sentence, banned, threshold, synsets, score,
                         tokens[i], replacement, log);
      assert tokens[..i + 1] == tokens[..i] + [tokens[i]];
      news := news + [replacement];
      logs := logs + [log];
    }
    assert tokens[..|tokens|] == tokens;
    result := ReconstructSentenceAsWritten(sentence, tokens, news);
    newTokens, lookups := news, logs;
    RewroteKeepsClean(sentence, SentenceRewrite(result, newTokens, lookups), banned, threshold, backend, synsets, score);
  }

  /** Python's `re.split(r'[.!?]+', text)`: the pieces between maximal runs
      of sentence marks, with an empty piece before a leading run and after
      a trailing one. */
  predicate IsEnMark(c: char)
  {
    c == '.' || c == '!' || c == '?'
  }

  predicate NoEnMark(s: string)
  {
    forall i :: 0 <= i < |s| ==> !IsEnMark(s[i])
  }

  function SkipMarks(s: string): (r: string)
    ensures |r| <= |s| && r == s[|s| - |r|..]
    ensures r != [] ==> !IsEnMark(r[0])
  {
    if s != [] && IsEnMark(s[0]) then SkipMarks(s[1..]) else s
  }

  function SplitOnMarkRuns(s: string): (r: seq<string>)
    ensures |r| >= 1
    decreases |s|
  {
    if s == [] then [[]]
    else if IsEnMark(s[0]) then [[]] + SplitOnMarkRuns(SkipMarks(s[1..]))
    else
      var rest := SplitOnMarkRuns(s[1..]);
      [[s[0]] + rest[0]] + rest[1..]
  }

  /** No piece holds a sentence mark. */
  lemma {:induction false} MarkRunsNoMark(s: string)
    ensures forall i :: 0 <= i < |SplitOnMarkRuns(s)| ==> NoEnMark(SplitOnMarkRuns(s)[i])
    decreases |s|
  {
    if s != [] {
      if IsEnMark(s[0]) {
        MarkRunsNoMark(SkipMarks(s[1..]));
      } else {
        MarkRunsNoMark(s[1..]);
        var rest := SplitOnMarkRuns(s[1..]);
        assert NoEnMark([s[0]] + rest[0]);
      }
    }
  }

  lemma StripNoMark(p: string)
    requires NoEnMark(p)
    ensures NoEnMark(Strip(p))
  {
    forall i | 0 <= i < |Strip(p)|
      ensures !IsEnMark(Strip(p)[i])
    {
      assert Strip(p)[i] in Strip(p);
    }
  }

  lemma {:induction false} StrippedNonEmptyNoMark(pieces: seq<string>)
    requires forall i :: 0 <= i < |pieces| ==> NoEnMark(pieces[i])
    ensures forall i :: 0 <= i < |StrippedNonEmpty(pieces)| ==> NoEnMark(StrippedNonEmpty(pieces)[i])
  {
    if pieces != [] {
      var s, rest := Strip(pieces[0]), StrippedNonEmpty(pieces[1..]);
      assert forall i :: 0 <= i < |pieces[1..]| ==> NoEnMark(pieces[1..][i]) by {
        forall i | 0 <= i < |pieces[1..]| ensures NoEnMark(pieces[1..][i]) {
          assert pieces[1..][i] == pieces[i + 1];
        }
      }
      StrippedNonEmptyNoMark(pieces[1..]);
      if s != [] {
        StripNoMark(pieces[0]);
        assert StrippedNonEmpty(pieces) == [s] + rest;
        forall i | 0 <= i < |[s] + rest|
          ensures NoEnMark(([s] + rest)[i])
        {
          if i > 0 {
            assert ([s] + rest)[i] == rest[i - 1];
          }
        }
      } else {
        assert StrippedNonEmpty(pieces) == rest;
      }
    }
  }


  /** The sentences of an English text: the stripped, non-empty pieces
      between runs of '.', '!' and '?'. */
  function SplitSentences(text: string): seq<string>
  {
    StrippedNonEmpty(SplitOnMarkRuns(text))
  }

  /** Every sentence is non-empty, stripped and free of sentence marks. */
  lemma SentencesShape(text: string)
    ensures forall i :: 0 <= i < |SplitSentences(text)| ==>
              SplitSentences(text)[i] != [] && IsStripped(SplitSentences(text)[i]) && NoEnMark(SplitSentences(text)[i])
  {
    MarkRunsNoMark(text);
    StrippedNonEmptyShape(SplitOnMarkRuns(text));
    StrippedNonEmptyNoMark(SplitOnMarkRuns(text));
  }

  lemma {:induction false} NoMarkSplitsToItself(s: string)
    requires NoEnMark(s)
    ensures SplitOnMarkRuns(s) == [s]
    decreases |s|
  {
    if s != [] {
      NoMarkSplitsToItself(s[1..]);
      assert [s[0]] + s[1..] == s;
    }
  }

  /** A stripped, non-empty text without sentence marks is one sentence. */
  lemma SingleSentence(text: string)
    requires text != [] && IsStripped(text) && NoEnMark(text)
    ensures SplitSentences(text) == [text]
  {
    NoMarkSplitsToItself(text);
    StripStripped(text);
  }

  /** A mark-free piece followed by a mark ends there. */
  lemma {:induction false} PieceBeforeMark(a: string, rest: string)
    requires NoEnMark(a) && rest != [] && IsEnMark(rest[0])
    ensures SplitOnMarkRuns(a + rest) == [a] + SplitOnMarkRuns(SkipMarks(rest[1..]))
    decreases |a|
  {
    if a != [] {
      assert (a + rest)[1..] == a[1..] + rest;
      assert [a[0]] + a[1..] == a;
      PieceBeforeMark(a[1..], rest);
    } else {
      assert a + rest == rest;
    }
  }

  lemma TwoPieces(a: string, m: char, b: string)
    requires NoEnMark(a) && b != [] && NoEnMark(b) && IsEnMark(m)
    ensures SplitOnMarkRuns(a + [m] + b) == [a, b]
  {
    assert a + [m] + b == a + ([m] + b);
    PieceBeforeMark(a, [m] + b);
    assert ([m] + b)[1..] == b;
    assert SkipMarks(b) == b;
    NoMarkSplitsToItself(b);
  }

  /** Two sentences separated by a mark are split apart. */
  lemma TwoSentences(a: string, m: char, b: string)
    requires a != [] && IsStripped(a) && NoEnMark(a)
    requires b != [] && IsStripped(b) && NoEnMark(b)
    requires IsEnMark(m)
    ensures SplitSentences(a + [m] + b) == [a, b]
  {
    TwoPieces(a, m, b);
    StripStripped(a);
    StripStripped(b);
    assert [a, b][1..] == [b] && [b][1..] == [];
    assert StrippedNonEmpty([b]) == [b];
    assert StrippedNonEmpty([a, b]) == [a] + StrippedNonEmpty([b]);
  }

  /** The empty piece after a closing mark is dropped. */
  lemma ClosingMarkDropped(a: string, m: char)
    requires a != [] && IsStripped(a) && NoEnMark(a)
    requires IsEnMark(m)
    ensures SplitSentences(a + [m]) == [a]
  {
    PieceBeforeMark(a, [m]);
    assert [m][1..] == [];
    StripStripped(a);
    assert IsBlank([]);
    assert SplitOnMarkRuns(a + [m]) == [a, []];
    assert StrippedNonEmpty([[]]) == [];
  }

  /** The rebuilt sentences of a list of rewrites. */
  function Results(rewrites: seq<SentenceRewrite>): (r: seq<string>)
    ensures |r| == |rewrites| && forall k :: 0 <= k < |rewrites| ==> r[k] == rewrites[k].result
  {
    seq(|rewrites|, k requires 0 <= k < |rewrites| => rewrites[k].result)
  }

  /** The first |rewrites| sentences, each rewritten. */
  ghost predicate RewroteEach(sentences: seq<string>, rewrites: seq<SentenceRewrite>, banned: seq<string>,
                              threshold: real, backend: Backend, synsets: Synsets, score: Score)
  {
    |rewrites| <= |sentences|
    && forall k :: 0 <= k < |rewrites| ==>
         RewroteSentence(sentences[k], rewrites[k], banned, threshold, backend, synsets, score)
  }

  lemma RewroteEachExtend(sentences: seq<string>, rewrites: seq<SentenceRewrite>, rw: SentenceRewrite,
                          banned: seq<string>, threshold: real, backend: Backend, synsets: Synsets, score: Score)
    requires RewroteEach(sentences, rewrites, banned, threshold, backend, synsets, score)
    requires |rewrites| < |sentences|
    requires RewroteSentence(sentences[|rewrites|], rw, banned, threshold, backend, synsets, score)
    ensures RewroteEach(sentences, rewrites + [rw], banned, threshold, backend, synsets, score)
  {
    var grown := rewrites + [rw];
    forall k | 0 <= k < |grown|
      ensures RewroteSentence(sentences[k], grown[k], banned, threshold, backend, synsets, score)
    {
      if k < |rewrites| {
        assert grown[k] == rewrites[k];
      }
    }
  }

  /** Rewritten sentences that are clean are kept. */
  lemma RewroteEachKeepsClean(sentences: seq<string>, rewrites: seq<SentenceRewrite>, banned: seq<string>,
                              threshold: real, backend: Backend, synsets: Synsets, score: Score)
    requires RewroteEach(sentences, rewrites, banned, threshold, backend, synsets, score)
    ensures forall k :: 0 <= k < |rewrites| ==> KeptIfClean(sentences[k], rewrites[k].result, banned, backend)
  {
    forall k | 0 <= k < |rewrites|
      ensures KeptIfClean(sentences[k], rewrites[k].result, banned, backend)
    {
      RewroteKeepsClean(sentences[k], rewrites[k], banned, threshold, backend, synsets, score);
    }
  }

  /** Rewrites each sentence in turn. */
  method RewriteSentences(sentences: seq<string>, banned: seq<string>, threshold: real, backend: Backend,
                          synsets: Synsets, score: Score)
    returns (rewrites: seq<SentenceRewrite>)
    ensures |rewrites| == |sentences|
    ensures forall k :: 0 <= k < |rewrites| ==>
              RewroteSentence(sentences[k], rewrites[k], banned, threshold, backend, synsets, score)
    ensures forall k :: 0 <= k < |rewrites| ==> KeptIfClean(sentences[k], rewrites[k].result, banned, backend)
  {
    rewrites := [];
    for i := 0 to |sentences|
      invariant |rewrites| == i
      invariant RewroteEach(sentences, rewrites, banned, threshold, backend, synsets, score)
    {
      var r, news, logs := RewriteSentence(sentences[i], banned, threshold, backend, synsets, score);
      RewroteEachExtend(sentences, rewrites, SentenceRewrite(r, news, logs), banned, threshold, backend, synsets, score);
      rewrites := rewrites + [SentenceRewrite(r, news, logs)];
    }
    RewroteEachKeepsClean(sentences, rewrites, banned, threshold, backend, synsets, score);
  }

  /** Rewrites every sentence and joins the results with single spaces. */
  method RewriteText(text: string, banned: seq<string>, threshold: real, backend: Backend,
                     synsets: Synsets, score: Score)
    returns (rewritten: string, rewrites: seq<SentenceRewrite>)
    ensures |rewrites| == |SplitSentences(text)|
    ensures forall k :: 0 <= k < |rewrites| ==>
              RewroteSentence(SplitSentences(text)[k], rewrites[k], banned, threshold, backend, synsets, score)
    ensures rewritten == Join(" ", Results(rewrites))
    ensures (forall k :: 0 <= k < |rewrites| ==> CleanSentence(SplitSentences(text)[k], banned, backend))
            ==> rewritten == Join(" ", SplitSentences(text))
  {
    var sentences := SplitSentences(text);
    rewrites := RewriteSentences(sentences, banned, threshold, backend, synsets, score);
    var results := seq(|rewrites|, k requires 0 <= k < |rewrites| => rewrites[k].result);
    rewritten := Join(" ", results);
    assert results == Results(rewrites);
    if forall k :: 0 <= k < |rewrites| ==> CleanSentence(sentences[k], banned, backend) {
      CleanSentencesKept(sentences, results, banned, backend);
    }
  }

  lemma CleanSentencesKept(sentences: seq<string>, outputs: seq<string>, banned: seq<string>, backend: Backend)
    requires |outputs| == |sentences|
    requires forall k :: 0 <= k < |outputs| ==> KeptIfClean(sentences[k], outputs[k], banned, backend)
    requires forall k :: 0 <= k < |outputs| ==> CleanSentence(sentences[k], banned, backend)
    ensures outputs == sentences
  {
    forall k | 0 <= k < |outputs|
      ensures outputs[k] == sentences[k]
    {
      assert KeptIfClean(sentences[k], outputs[k], banned, backend);
    }
  }
}
