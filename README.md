# Ripogram lipogram rewriter — a verified model

Ripogram rewrites a text so that it avoids a list of banned characters. The
result is a lipogram.

**Japanese.** The constraint applies to the kana reading. A word is
checked after its katakana reading is folded to hiragana. Every word that
breaks the constraint is replaced by a chat model, which is prompted again
with escalating strategies until a tokenizer reading of the candidate is
clean.

**English.** The constraint applies to the lower-cased spelling. A
violating word is replaced by the WordNet synonym that embeds most like it
in context and contains no banned character.

**Around the two rewriters:**
- a command line and an interactive application read the banned list;
- a metrics module scores the outputs (the constraint check, VRR, TTR,
  n-gram repetition);
- three scripts build the evaluation data and run the evaluation.

The project is one Dafny module per source file, plus three shared modules:
- `Wrappers` holds `Option` and `Result`.
- `Text` holds the Python string built-ins the sources use: `strip`,
  `split(',')`, `split()`, `lower`, `upper`, `isalpha`, `find`, `in`,
  `replace(…, 1)` and `join`. `isspace` is Python's full whitespace set.
- `JaTokens` holds the Japanese token and the tokenizer type.

**Imperative code stays imperative.** Each source loop is a method with
loop invariants, proved equal to a recursive specification function. The
properties the source relies on are lemmas about that function.

**Oracles.** Everything the code calls but cannot see is a function-typed
parameter:
- the Japanese morphological analyser (`Tokenizer`);
- the chat model (`ChatModel`). Its reply depends on the prompt and on the
  ordinal of the call, which models sampling;
- the WordNet lookup (`Synsets`);
- the embedding similarity (`Score`);
- the spaCy or NLTK analysis (`Backend`);
- the two rewriters and the clock used by the evaluation script (`Rewrite`,
  `Timer`);
- the positions drawn by the random sampler (`picks`).

## Model

| member | source | states |
|---|---|---|
| Utils.KatakanaToHiragana | ripogram/core/utils.py:8-21 | same length; every katakana ァ..ン moves down by 0x60 into the hiragana block, every other character is kept |
| Utils.KatakanaToHiraganaLeavesNoKatakana | ripogram/core/utils.py:18-21 | no shiftable katakana is left in the result |
| Utils.KatakanaToHiraganaIdempotent | ripogram/core/utils.py:18-21 | converting twice is converting once |
| Utils.LongVowelAndVuUnchanged | ripogram/core/utils.py:18-21 | the long-vowel mark ー and ヴ are outside the shifted range and pass through unchanged |
| Utils.ContainsBannedIff | ripogram/core/utils.py:24-35 | the check is true exactly when some banned entry is a substring of the text |
| Utils.EmptyEntryBansEverything | ripogram/core/utils.py:24-35 | an empty entry in the list makes every text violate |
| Utils.ContainsBannedMonotone | ripogram/core/utils.py:24-35 | banning more entries never turns a violation into a pass |
| Utils.ContainsBannedChars | ripogram/core/utils.py:24-35 | with single-character entries, a text violates exactly when one of its characters is banned |
| Utils.MonkeyExample | ripogram/core/utils.py:8-35 | サル reads as さる, and さる violates the list [さ, い] |
| Text.Strip | ripogram/cli.py:22 | the result has no surrounding whitespace and it is empty exactly when the input is blank |
| Text.StripIsSlice | ripogram/cli.py:22 | the result is one contiguous slice of the input, with only whitespace before and after it |
| Text.StripChars | ripogram/cli.py:22 | every character of the result comes from the input |
| Text.StripIdempotent | ripogram/cli.py:22 | stripping twice is stripping once |
| Text.SplitOnJoin | ripogram/cli.py:22 | splitting on a separator undoes joining separator-free fields with it |
| Text.JoinSplitOn | ripogram/cli.py:22 | joining the fields of a split with the separator gives back the text |
| Text.SplitOnCount | ripogram/cli.py:22 | a split gives one more field than the text has separators |
| Text.Count | ripogram/metrics.py:128 | the occurrence count is positive exactly when the pattern is a substring |
| Text.FindFromFirst | ripogram/core/english_bert_rewriter.py:276 | `find` from an offset returns the first occurrence at or after it, or -1 when there is none |
| Text.Words | apps/integrated_streamlit_app.py:66 | whitespace splitting gives non-empty, whitespace-free words, and no word exactly when the input is blank |
| Text.WordsChars | apps/integrated_streamlit_app.py:66 | every character of every word comes from the input |
| Text.StrippedNonEmptyShape | scripts/evaluate_jp.py:49-50 | every kept field is stripped and non-empty |
| Text.StrippedNonEmptyKeeps | scripts/evaluate_jp.py:49-50 | a list of stripped, non-empty fields is kept whole |
| Text.StrippedNonEmptyAvoids | scripts/evaluate_jp.py:49-50 | a character absent from every field is absent from every kept entry |
| Cli.ParseBannedCharsShape | ripogram/cli.py:12-22 | one entry per comma-separated field (commas + 1), each stripped and comma-free |
| Cli.BlankInputBansEverything | ripogram/cli.py:12-22 | blank input yields the single empty entry, which every text violates |
| Cli.ParseBannedCharsRoundTrip | ripogram/cli.py:12-22 | stripped, comma-free entries joined with commas parse back to the same list |
| JaRewriter.SplitKeepingMarks | ripogram/core/rewriter.py:38 | the capturing split alternates mark-free runs with single marks and concatenates back to the text |
| JaRewriter.RecombineShape | ripogram/core/rewriter.py:41-50 | every sentence kept is non-blank, and every one but the last ends with its 。！？ mark |
| JaRewriter.RecombineConcat | ripogram/core/rewriter.py:41-50 | the sentences concatenate to the text, less a whitespace-only trailing remainder |
| JaRewriter.SplitIntoSentences | ripogram/core/rewriter.py:27-52 | the loop equals the recursive recombination, yields a sentence list, and concatenates to the kept text |
| JaRewriter.TrailingBlankRemainderDropped | ripogram/core/rewriter.py:49-50 | "あ。 " splits to text "あ。": the blank tail is lost |
| JaRewriter.StrategyFor | ripogram/core/rewriter.py:112-117 | synonym exactly for attempts 0-2, broader concept for 3-5, free paraphrase from 6 |
| JaRewriter.StrategyEscalates | ripogram/core/rewriter.py:112-117 | the strategy never steps back as attempts increase |
| JaRewriter.RemoveQuotesChars | ripogram/core/rewriter.py:138-139 | no quote or bracket is left, and every character comes from the reply |
| JaRewriter.CleanReply | ripogram/core/rewriter.py:132-140 | no candidate exactly when the stripped, unquoted reply is blank; otherwise a non-empty, whitespace-free first word |
| JaRewriter.CleanReplyUnquoted | ripogram/core/rewriter.py:135-140 | the candidate word holds no quote or bracket |
| JaRewriter.Judge | ripogram/core/rewriter.py:143-159 | acceptance means the candidate tokenizes and neither it nor its joined token reading holds a banned entry; rejection means it tokenizes and one of them does |
| JaRewriter.JudgeCases | ripogram/core/rewriter.py:132-159 | an attempt is unproductive exactly when the reply is missing, an error, blank after cleaning, or tokenizes to nothing; otherwise its word is the cleaned reply |
| JaRewriter.TryOnce | ripogram/core/rewriter.py:111-159 | one attempt: the reply to the prompt carrying the history and this attempt's strategy, judged; an accepted word is validated and a rejected one is rejected |
| JaRewriter.RejectionRecorded | ripogram/core/rewriter.py:150-155 | appending a new rejected candidate keeps the failed list duplicate-free and all-rejected |
| JaRewriter.ValidatedIsNotRejected | ripogram/core/rewriter.py:143-155 | a validated candidate is never one that is recorded as failed |
| JaRewriter.SearchFromReturns | ripogram/core/rewriter.py:82-165 | from an attempt reached with no acceptance, the search returns the first accepted attempt with no acceptance before it, or the fallback after all attempts and none accepted |
| JaRewriter.SearchReturns | ripogram/core/rewriter.py:82-165 | the search returns the word and reading of the first accepted attempt, after as many calls as attempts made, or the original word with its fallback reading after `max_attempts` unaccepted attempts |
| JaRewriter.SearchValidatedOrOriginal | ripogram/core/rewriter.py:82-165 | the search makes at most `max_attempts` calls and returns a validated word or the original with its fallback reading after every attempt |
| JaRewriter.GenerateReplacement | ripogram/core/rewriter.py:82-165 | the loop returns the search: the first accepted reply's word and reading after no earlier acceptance, or the original word and fallback reading only after `max_attempts` unaccepted replies; the history in force at each attempt is the one the search defines, and it only grows, without duplicates, with rejected candidates |
| JaRewriter.RewriteTokenWithContext | ripogram/core/rewriter.py:54-165 | the result is the first accepted reply of the search with the whole text in the prompt, or the original word and reading after `max_attempts` unaccepted replies; at most `max_attempts` calls |
| JaRewriter.RewriteToken | ripogram/core/rewriter.py:268-371 | the same tie to the first accepted reply, for the prompt with the sentence only |
| JaRewriter.SearcherForSound | ripogram/core/rewriter.py:54-165 | the inner search the retry loop calls (`SearcherFor`: `rewrite_token_with_context`/`rewrite_token` with ten attempts) makes at most ten calls and returns a validated word or the token itself, from any history |
| JaRewriter.Retries | ripogram/core/rewriter.py:211-237 | given any inner search with that guarantee: between one and five searches, at most ten calls each; the emitted word is the token or a validated candidate; it fails the test only after all five searches, and then it is the token itself |
| JaRewriter.RetryRound | ripogram/core/rewriter.py:221-237 | one round of the retry loop: it stops on an acceptable result or on the last round, and otherwise hands on the calls and the grown history, as the retry function unfolds |
| JaRewriter.RetryFrom | ripogram/core/rewriter.py:217-237 | driven by the token's own inner search, the retry loop from a given round yields exactly the retry function's result |
| JaRewriter.ResolveToken | ripogram/core/rewriter.py:194-256 | a clean token is emitted as is with no call; a violating one is the result of up to five inner searches, each given a copy of the history, ending at the first acceptable result; that is a validated replacement or the surface; at most 5 × 10 calls |
| JaRewriter.CleanTokensEmittedUnchanged | ripogram/core/rewriter.py:202-256 | when no token violates, the emitted surfaces are the original ones |
| JaRewriter.ResolveAllSound | ripogram/core/rewriter.py:194-256 | every word the token loop (`ResolveAll`: a clean token's surface with no call, or the retry loop's result with the calls handed on) emits is its clean token, the surface or a validated word; at most 50 calls per violating token |
| JaRewriter.ResolveAllClean | ripogram/core/rewriter.py:202-256 | a sentence with no violating token is emitted as its surfaces with no call |
| JaRewriter.RewriteSentenceTokens | ripogram/core/rewriter.py:190-260 | the emitted words and the calls made are exactly `ResolveAll` of the sentence's tokens, each violating token resolved by the retry loop with the calls of the tokens before it; the output is their concatenation; calls ≤ 50 per violating token |
| JaRewriter.RewriteSentence | ripogram/core/rewriter.py:373-463 | the emitted words are `ResolveAll` of the sentence's tokens with the sentence as the only context, starting from no calls; the output is their concatenation, and a clean sentence comes back as its own surfaces |
| JaRewriter.CleanSentencesUnchanged | ripogram/core/rewriter.py:183-266 | sentences without violations whose tokens cover them come back unchanged |
| JaRewriter.RewriteAllClean | ripogram/core/rewriter.py:185-261 | over sentences with no violating token the sentence loop (`RewriteAll`) makes no call and emits each sentence's surfaces |
| JaRewriter.RewriteSentences | ripogram/core/rewriter.py:185-261 | the emitted words and calls are exactly `RewriteAll`: each sentence's token loop with the whole text as context, the calls of one sentence handed on to the next; one output per sentence, the concatenation of its words; calls ≤ 50 per violating token in the text |
| JaRewriter.RewriteTextWithContext | ripogram/core/rewriter.py:167-266 | the sentences are exactly the split of the text and cover its kept part; the emitted words and calls are `RewriteAll` of those sentences from no calls; the output is their rewrites concatenated; the call bound; a clean, covered text comes back unchanged |
| EnTokenizer.GetPhoneticRepresentation | ripogram/core/english_tokenizer.py:40-52 | same length, no upper-case letter left, and each character is kept or is an ASCII capital lowered |
| EnTokenizer.PhoneticIdempotent | ripogram/core/english_tokenizer.py:40-52 | the representation of a representation is itself |
| EnTokenizer.ConvertPosToWordnet | ripogram/core/english_tokenizer.py:146-170 | N*/V*/J* or ADJ/R* or ADV map to noun/verb/adjective/adverb in both directions; anything else, including the empty tag, is a noun |
| EnTokenizer.ConvertPosIgnoresCase | ripogram/core/english_tokenizer.py:158-170 | tags equal up to case convert alike |
| EnTokenizer.ConvertPosExamples | ripogram/core/english_tokenizer.py:146-170 | NN, VBD, JJ, RB, ADJ, adv, ADP and PROPN map as the Penn and universal tag sets intend |
| EnTokenizer.Rename | ripogram/core/english_tokenizer.py:138-139 | a lemma name with underscores read as spaces, same length |
| EnTokenizer.SynonymSetExcludesWord | ripogram/core/english_tokenizer.py:138-142 | no synonym equals the word up to case, and none holds an underscore |
| EnTokenizer.GetSynonyms | ripogram/core/english_tokenizer.py:118-144 | a duplicate-free list whose members are exactly the renamed lemmas of the word's synsets that differ from it |
| EnTokenizer.AddLemmas | ripogram/core/english_tokenizer.py:136-142 | the inner loop over one synset adds its lemmas to the set, keeping it duplicate-free |
| EnTokenizer.SpacyTokensFiltered | ripogram/core/english_tokenizer.py:89-100 | every spaCy token kept is a word token of the document with its lower-cased phonetic form |
| EnTokenizer.NltkTokensFiltered | ripogram/core/english_tokenizer.py:101-114 | every NLTK token kept is alphabetic, with its lower-cased phonetic form and lemma |
| EnTokenizer.Tokenize | ripogram/core/english_tokenizer.py:77-116 | the loop yields the backend's filtered analysis; phonetic forms are lower case; NLTK tokens are alphabetic |
| EnRewriter.LowerAll | ripogram/core/english_bert_rewriter.py:123-126 | each banned entry lower-cased, position by position |
| EnRewriter.Dedupe | ripogram/core/english_bert_rewriter.py:113 | duplicate-free, same members as the input |
| EnRewriter.ValidSynonyms | ripogram/core/english_bert_rewriter.py:119-128 | a pooled candidate survives exactly when, compared in lower case, it holds no banned entry and is not a failed attempt |
| EnRewriter.EmbedText | ripogram/core/english_bert_rewriter.py:43-47 | the context is embedded when there is one, the bare word otherwise |
| EnRewriter.AbsentWordComparesContextWithItself | ripogram/core/english_bert_rewriter.py:140-152 | when the word is not found in the context the synonym's text is the unchanged context |
| EnRewriter.MostSimilar | ripogram/core/english_bert_rewriter.py:133-158 | the scan returns a candidate with the greatest positive score, or the fallback at 0.0 |
| EnRewriter.FindBestSynonym | ripogram/core/english_bert_rewriter.py:60-158 | the original at 0.0, or an admissible candidate of the pool with a positive similarity that no admissible candidate beats |
| EnRewriter.Surfaces | ripogram/core/english_bert_rewriter.py:268-273 | the token surfaces, position by position |
| EnRewriter.Locate | ripogram/core/english_bert_rewriter.py:276 | not found, or a match at or after the offset inside the text |
| EnRewriter.ReconstructSentenceAsWritten | ripogram/core/english_bert_rewriter.py:252-285 | the loop as written: each changed surface is spliced at its first case-insensitive match from position 0 |
| EnRewriter.AsWrittenUnchanged | ripogram/core/english_bert_rewriter.py:268-285 | with no token changed the sentence is returned unchanged |
| EnRewriter.AsWrittenSplicesInsideEarlierToken | ripogram/core/english_bert_rewriter.py:268-285 | "as a" with [as, a] → [so, one] rebuilds as "ones a" |
| EnRewriter.ReplacementLandsInFirstToken | ripogram/core/english_bert_rewriter.py:276-283 | the last token's replacement lands inside the first word |
| EnRewriter.FirstTokenNoLongerFound | ripogram/core/english_bert_rewriter.py:276-283 | the first token is then no longer found and is left in place |
| EnRewriter.AsWrittenExampleStillViolates | ripogram/core/english_bert_rewriter.py:160-285 | both replacements avoid "a", yet the rebuilt sentence still holds it |
| EnRewriter.ReconstructSentence | ripogram/core/english_bert_rewriter.py:252-285 | the corrected loop (the Finding below): each token is looked for from the end of the previous one |
| EnRewriter.ReconstructInOrderRebuilds | ripogram/core/english_bert_rewriter.py:252-285 | a sentence made of gaps and tokens, where no gap hides the next token, is rebuilt with the new tokens in the same gaps |
| EnRewriter.ForwardUnchanged | ripogram/core/english_bert_rewriter.py:268-285 | the corrected loop with nothing changed returns the sentence |
| EnRewriter.InOrderOnCounterexample | ripogram/core/english_bert_rewriter.py:252-285 | the corrected loop rebuilds "as a" as "so one" |
| EnRewriter.NextLookup | ripogram/core/english_bert_rewriter.py:210-212 | each lookup is the best synonym given the candidates that failed before it |
| EnRewriter.ResolveToken | ripogram/core/english_bert_rewriter.py:199-238 | one to three lookups, each the best synonym given the earlier failed candidates; no lookup before the last passes the test (a new candidate, similarity at the threshold, no banned letter); a passing last lookup is the replacement, otherwise the surface is kept after exactly three; the similarity is that lookup's, or 0.0 |
| EnRewriter.ResolvedReplacementQualifies | ripogram/core/english_bert_rewriter.py:214-218 | a replacement is a pool candidate free of banned letters whose positive similarity reaches the threshold |
| EnRewriter.KeptOnlyAfterThreeLookups | ripogram/core/english_bert_rewriter.py:204-235 | the surface is kept only after three lookups, none of which passed the test |
| EnRewriter.CleanKeepsSentence | ripogram/core/english_bert_rewriter.py:195-245 | when no token violates, every token is kept and the as-written rebuild returns the sentence unchanged |
| EnRewriter.CleanKeepsSentenceInOrder | ripogram/core/english_bert_rewriter.py:195-245 | the corrected rebuild also returns such a sentence unchanged |
| EnRewriter.RewriteSentence | ripogram/core/english_bert_rewriter.py:160-250 | every clean token kept with no lookup, every violating token resolved as above with its lookups; the result is the as-written rebuild of the sentence from the new tokens; a clean sentence comes back unchanged |
| EnRewriter.RewroteKeepsClean | ripogram/core/english_bert_rewriter.py:160-250 | a rewritten sentence whose tokens are all clean comes back unchanged |
| EnRewriter.SkipMarks | ripogram/core/english_bert_rewriter.py:339 | a suffix of the text that does not start with . ! or ? |
| EnRewriter.MarkRunsNoMark | ripogram/core/english_bert_rewriter.py:339 | no piece of the split holds . ! or ? |
| EnRewriter.SentencesShape | ripogram/core/english_bert_rewriter.py:328-341 | every sentence is non-empty, stripped and free of . ! ? |
| EnRewriter.SingleSentence | ripogram/core/english_bert_rewriter.py:328-341 | a stripped, mark-free, non-empty text is one sentence |
| EnRewriter.TwoSentences | ripogram/core/english_bert_rewriter.py:328-341 | two such sentences joined by one mark split back into the two |
| EnRewriter.ClosingMarkDropped | ripogram/core/english_bert_rewriter.py:328-341 | a closing mark is dropped, not kept with the sentence |
| EnRewriter.RewriteSentences | ripogram/core/english_bert_rewriter.py:314-324 | one rewrite per sentence, each the sentence rewrite above of that sentence, and each clean sentence kept |
| EnRewriter.RewroteEachKeepsClean | ripogram/core/english_bert_rewriter.py:314-324 | in such a list, every clean sentence is kept |
| EnRewriter.RewriteText | ripogram/core/english_bert_rewriter.py:287-326 | one rewrite per split sentence, each the sentence rewrite of that sentence; the output is their results joined with single spaces; a text of clean sentences comes back as its sentences joined |
| EnRewriter.CleanSentencesKept | ripogram/core/english_bert_rewriter.py:314-326 | clean sentences give outputs equal to the inputs |
| Metrics.ContentTokens | ripogram/metrics.py:86-88 | a token is kept exactly when it is in the input and is a content token (see the lemma) |
| Metrics.ContentTokensExactly | ripogram/metrics.py:72-88 | a token is kept exactly when it is in the input, its surface is not blank and its part of speech is not 記号 (symbol) |
| Metrics.ContentTokensIdempotent | ripogram/metrics.py:86-88 | filtering twice is filtering once |
| Metrics.ReadingHoldsTokenReading | ripogram/metrics.py:95-98 | every token's reading is a substring of the text's reading |
| Metrics.FoundKana | ripogram/metrics.py:125-131 | no more entries than the list has (their membership is the next lemma) |
| Metrics.FoundKanaExactly | ripogram/metrics.py:125-131 | an entry is reported exactly when it is on the list and occurs in the basis |
| Metrics.TotalCountPositive | ripogram/metrics.py:125-131 | the total is positive exactly when some entry occurs |
| Metrics.ViolatedIffContainsBanned | ripogram/metrics.py:101-138 | the check agrees with `contains_banned` |
| Metrics.FoundIffViolated | ripogram/metrics.py:125-138 | nothing is found exactly when the total count is zero |
| Metrics.CheckConstraint | ripogram/metrics.py:101-138 | a mode other than reading or surface is an error; otherwise the basis (the reading or the text) is scored fully |
| Metrics.ReadingModeCatchesToken | ripogram/metrics.py:95-131 | a banned kana in any token's reading is caught in reading mode |
| Metrics.LcsPrefix | ripogram/metrics.py:145-158 | the recurrence is bounded by both prefix lengths |
| Metrics.LcsUpperBound | ripogram/metrics.py:145-158 | no common subsequence is longer than the recurrence |
| Metrics.LcsAchieved | ripogram/metrics.py:145-158 | a common subsequence of exactly that length exists |
| Metrics.LcsLength | ripogram/metrics.py:145-158 | the table fill returns the longest common subsequence length |
| Metrics.FillRow | ripogram/metrics.py:152-157 | one row of the table is filled, the other rows unchanged |
| Metrics.Mismatches | ripogram/metrics.py:186-188 | at most the length, and zero exactly when the sequences are equal |
| Metrics.ComputeVrr | ripogram/metrics.py:161-193 | the ratio of changed content surfaces, positional for equal lengths, LCS-based otherwise |
| Metrics.VrrBounds | ripogram/metrics.py:161-193 | the ratio lies in [0, 1] |
| Metrics.VrrPositionalZero | ripogram/metrics.py:186-188 | for equal lengths it is zero exactly when nothing changed |
| Metrics.VrrZeroIffKept | ripogram/metrics.py:191-193 | for unequal lengths it is zero exactly when the original is a subsequence of the rewrite |
| Metrics.DistinctCount | ripogram/metrics.py:207 | the distinct count is at most the total, equal exactly when all are distinct |
| Metrics.TtrBounds | ripogram/metrics.py:200-208 | a non-empty text has a ratio in (0, 1], equal to 1 exactly when no surface repeats |
| Metrics.Ngrams | ripogram/metrics.py:226-228 | len(s) − n + 1 windows, window i being s[i..i+n] |
| Metrics.NgramRateBounds | ripogram/metrics.py:211-236 | the rate lies in [0, 1) and is 0 exactly when no n-gram repeats |
| Metrics.ExcessSum | ripogram/metrics.py:235-236 | the sum of (count − 1) plus the number of distinct keys is the total count |
| Metrics.TallyStep | ripogram/metrics.py:231-233 | one increment keeps the counts equal to the occurrences seen so far |
| Metrics.CountNgrams | ripogram/metrics.py:230-233 | the dictionary holds each n-gram's occurrence count, keys in first-seen order |
| Metrics.TallyRepeated | ripogram/metrics.py:231-236 | the summed excess is the number of n-grams beyond their first occurrence |
| Metrics.SumRepeated | ripogram/metrics.py:235 | the summation loop returns the excess |
| Metrics.NgramRepetitionRate | ripogram/metrics.py:211-236 | the method returns the repetition rate of the content surfaces |
| EvaluateJp.ParseBannedEntries | scripts/evaluate_jp.py:49-50 | every entry is non-empty, stripped and comma-free |
| EvaluateJp.ParseBannedRoundTrip | scripts/evaluate_jp.py:49-50 | such entries joined with commas parse back to themselves |
| EvaluateJp.Meta | scripts/evaluate_jp.py:121 | the metadata holds none of the text or banned columns |
| EvaluateJp.GetMeta | scripts/evaluate_jp.py:121 | a metadata lookup is the row's, except that reserved columns are absent |
| EvaluateJp.UpdateLookup | scripts/evaluate_jp.py:155 | after the update a key is present exactly when it was or the metadata has it, and the metadata value wins |
| EvaluateJp.MethodRecords | scripts/evaluate_jp.py:123-156 | one record per method |
| EvaluateJp.Limited | scripts/evaluate_jp.py:106-107 | a positive limit keeps that many leading rows (or all), otherwise every row |
| EvaluateJp.EvaluateOne | scripts/evaluate_jp.py:123-155 | the record built for one method |
| EvaluateJp.FailureSticks | scripts/evaluate_jp.py:112-119 | once a row fails, the whole run has that failure |
| EvaluateJp.EvaluatedNext | scripts/evaluate_jp.py:112-156 | each further row appends its records or ends the run with its error |
| EvaluateJp.EvaluateRow | scripts/evaluate_jp.py:113-156 | the row's records, or the missing-banned-list error |
| EvaluateJp.EvaluateRows | scripts/evaluate_jp.py:103-156 | the loop over the limited rows with the default list equals the specification of the run |
| EvaluateJp.EvaluatedLast | scripts/evaluate_jp.py:112-156 | a successful run adds one record per method for each non-blank row |
| EvaluateJp.EvaluatedCount | scripts/evaluate_jp.py:112-156 | a successful run has methods × non-blank rows records |
| EvaluateJp.FailsLast | scripts/evaluate_jp.py:112-119 | a run fails exactly when a shorter run fails or the last row lacks a banned list |
| EvaluateJp.EvaluatedFails | scripts/evaluate_jp.py:112-119 | a run fails exactly when some non-blank row ends up with an empty banned list, its own or the default |
| EvaluateJp.CommaOnlyOverridesDefault | scripts/evaluate_jp.py:116-117 | a row whose banned column is "," overrides the default with an empty list, so that row stops the run |
| EvaluateJp.ReservedColumnKept | scripts/evaluate_jp.py:121-155 | the update never overwrites a text or banned column |
| EvaluateJp.RecordTextAndBanned | scripts/evaluate_jp.py:140-155 | the record's text and banned columns are the stripped text and the comma-joined list |
| EvaluateJp.RecordViolation | scripts/evaluate_jp.py:140-155 | without clashing metadata, the record carries the check's verdict and count |
| EvaluateJp.MetaIdWins | scripts/evaluate_jp.py:141-155 | an id column in the input row replaces the row index |
| EvaluateJp.ScoresMeaning | scripts/evaluate_jp.py:134-138 | violated means a banned kana in the reading; found is empty exactly when not violated; the rates are in range |
| GenerateBase.HasJapaneseIff | scripts/generate_base_200.py:19-20 | the search succeeds exactly when some character is hiragana ぁ-ん or kanji 一-龥 |
| GenerateBase.SelectedExactly | scripts/generate_base_200.py:33-39 | a value is selected exactly when it is the image of a row and passes the test |
| GenerateBase.CandidatesNext | scripts/generate_base_200.py:33-39 | each row adds its stripped text when it passes both filters, and nothing otherwise |
| GenerateBase.CollectCandidates | scripts/generate_base_200.py:33-39 | the reading loop returns every passing row's id and stripped text in order |
| GenerateBase.CandidatesExactly | scripts/generate_base_200.py:33-39 | every candidate is a passing stripped row, and every passing row is a candidate |
| GenerateBase.SampledShape | scripts/generate_base_200.py:42-43 | at most 200 are kept, all of them in order when there are at most 200, and each is a candidate |
| GenerateBase.PickFrom | scripts/generate_base_200.py:42-43 | every sampled element is a candidate |
| GenerateBase.NumberRows | scripts/generate_base_200.py:48-49 | the writing loop yields the numbered rows |
| GenerateBase.NumberedFields | scripts/generate_base_200.py:48-49 | row i has id i, the candidate's text, genre tatoeba and source id tatoeba:<id> |
| GenerateBase.GenerateBaseRows | scripts/generate_base_200.py:23-49 | the script's rows are the sampled candidates, numbered |
| GenerateBase.BaseRowsSound | scripts/generate_base_200.py:23-49 | at most 200 rows numbered from 0, each a 20-60 character Japanese stripped source text with that source's id |
| GenerateBase.FewCandidatesAllKept | scripts/generate_base_200.py:42-49 | with at most 200 candidates all are written in order |
| GenerateDev.FilterExactly | scripts/generate_dev_from_base.py:50-53 | an element passes exactly when it is in the list and satisfies the test |
| GenerateDev.PickUpToFirst | scripts/generate_dev_from_base.py:50-67 | the picked sets are the first three qualifying ones, or all of them |
| GenerateDev.PickUpToSaturated | scripts/generate_dev_from_base.py:65-67 | after three picks the rest of the list is not examined |
| GenerateDev.PickUpToSound | scripts/generate_dev_from_base.py:50-53 | every picked set is on the list and qualifies |
| GenerateDev.PickSets | scripts/generate_dev_from_base.py:50-67 | the inner loop picks the sets the specification picks |
| GenerateDev.AppendSentence | scripts/generate_dev_from_base.py:50-67 | one record per picked set is appended, numbered on from the records so far |
| GenerateDev.ExpandRecords | scripts/generate_dev_from_base.py:43-67 | the outer loop produces the specified records for every base row |
| GenerateDev.GenerateDev | scripts/generate_dev_from_base.py:23-67 | the records for the fixed five banned sets |
| GenerateDev.DevIdsConsecutive | scripts/generate_dev_from_base.py:54-64 | record i has id i |
| GenerateDev.DevRecordsQualify | scripts/generate_dev_from_base.py:50-63 | every record's banned set is one of the sets and hits the record's text |
| GenerateDev.DevRecordsBound | scripts/generate_dev_from_base.py:43-67 | at most three records per base sentence |
| IntegratedApp.BlankFieldBansNothing | apps/integrated_streamlit_app.py:58-66 | a blank field bans nothing here, while the command line reads it as one empty entry banning everything |
| IntegratedApp.CommaFieldsShape | apps/integrated_streamlit_app.py:58-64 | with a comma, one stripped comma-free entry per field |
| IntegratedApp.SpaceSeparatedShape | apps/integrated_streamlit_app.py:58-66 | without a comma, non-empty whitespace-free words of the input |
| IntegratedApp.CommaRoundTrip | apps/integrated_streamlit_app.py:58-64 | two or more clean entries joined with commas parse back to themselves |
| IntegratedApp.KeptExactly | apps/integrated_streamlit_app.py:117-121 | an element is kept exactly when it is among those scanned and passes the test |
| IntegratedApp.VerifyLipogram | apps/integrated_streamlit_app.py:85-97 | the entries found are those whose lower case occurs in the lower-cased text; valid exactly when none is found |
| IntegratedApp.FoundBannedExactly | apps/integrated_streamlit_app.py:85-97 | an entry is reported exactly when it is listed and occurs case-insensitively |
| IntegratedApp.VerdictIffNoViolation | apps/integrated_streamlit_app.py:85-97 | the verdict is valid exactly when the rewriters' case-insensitive violation test fails |
| IntegratedApp.CharTokensExactly | apps/integrated_streamlit_app.py:107-108 | the Japanese tokens are exactly the single non-whitespace characters of the text |
| IntegratedApp.PartitionTokens | apps/integrated_streamlit_app.py:103-136 | the two passes collect the clean surfaces and the violating surfaces in order |
| IntegratedApp.TokensPartitioned | apps/integrated_streamlit_app.py:117-136 | each surface lands in exactly one list, as often as it occurs; the first only clean, the second only violating |

Where the descriptive documentation and the code differ, the model
follows the code:
- **Sentence splitting drops blank text.** Joining the Japanese sentences
  does not give back the text when the text ends in a whitespace-only
  remainder: `JaRewriter.RecombineConcat` and
  `JaRewriter.TrailingBlankRemainderDropped` show what is lost.
- **Entries are substrings.** Banned entries are tested as substrings,
  not as single characters. `Utils.ContainsBannedChars` gives the
  single-character reading as a special case.
- **The banned list can be empty or hold an empty entry.** A blank
  command-line list is one empty entry that bans everything. A
  comma-only row in the evaluation script gives an empty list, which
  overrides the default and stops the run with an error.
- **English sentences lose their punctuation.** They are joined with
  single spaces after their closing marks are dropped.

## Left out

- The prompt wording, the model name and temperature, and the chat client: the chat model is the `ChatModel` parameter; a prompt is modelled by the fields it carries.
- Progress printing and the `verbose` flags everywhere: output only.
- Python set iteration order: the candidate pools of `get_synonyms` and `find_best_synonym` are kept in first-occurrence order. With equal similarities, which synonym wins can therefore differ from CPython's.
- `str.lower`, `str.upper` and `str.isalpha` are modelled on ASCII letters only; Python's Unicode case tables are not part of this model.
- `get_word_embedding` and the cosine similarity: they are the `Score` parameter, which may return no score. NaN and floating-point rounding are not modelled; scores are reals.
- `get_pos_tag`, loading spaCy and downloading the NLTK corpora: the analysis is the `Backend` parameter.
- The Japanese morphological analyser (ripogram/core/tokenizer.py) is not part of this model: it is the `Tokenizer` parameter.
- `rewrite_text_one_shot` and the rewriters called by the evaluation script: they are `Rewrite` parameters.
- `measure_time`: the clock is the `Timer` parameter.
- EvaluateJp.EvaluateOne: the scores are stored unrounded; `round(…, 6)` on floats is not modelled.
- File and CSV/JSONL reading and writing and the column order of `write_rows`: records are maps from column to value. Non-string metadata values are modelled as strings.
- `random.seed` and `random.sample`: the sampler's positions are the `picks` parameter, required to be 200 distinct positions when there are more than 200 candidates.
- Streamlit: the widgets, the session history, the PDF slideshow and the display truncation of token lists to 20 entries.
- `previous_replacements` in the Japanese rewriter: it is written but never read, so it has no effect.
- JaRewriter.GenerateReplacement: the failed-candidate list it extends is a ghost history, not the caller's list mutated in place; the caller passes a copy, so no mutation is visible to it.
- JaRewriter.RetryFrom: the `for retry in range(max_retries)` loop with its `break` is modelled as a recursion over the round number, one call per round; the rounds, their order and their results are those of the loop.
- EnRewriter.FindBestSynonym: the original word's embedding (english_bert_rewriter.py:131) is computed outside the `try`, so an exception there aborts the whole rewrite; the model has no exceptions, and the `Score` parameter's missing score stands only for the per-synonym failures caught at line 154.
- A negative n-gram size `n`: `n` is a natural number.
- Missing keys in token dictionaries: every token has a surface, a reading and a part of speech.
- EnTokenizer.Tokenize: it builds the token list from the back, which gives the same list as the source's forward loop.
- GenerateDev.ExpandRecords: it takes the banned sets as a parameter; `GenerateDev.GenerateDev` fixes them to the script's five sets.

## Findings

| source | as written | input that shows it | evidently intended | confidence | as-written member | corrected member |
|---|---|---|---|---|---|---|
| ripogram/core/english_bert_rewriter.py:268-283 | `offset` never advances. Every changed token is searched from position 0, and the reverse loop splices it at its first case-insensitive match anywhere in the sentence, which may lie inside an earlier word. | sentence "as a", tokens [as, a], banned [a], new tokens [so, one]: the result is "ones a", which still holds "a" | each token is replaced where it stands, giving "so one" | not executed | EnRewriter.ReconstructSentenceAsWritten, EnRewriter.AsWrittenSplicesInsideEarlierToken, EnRewriter.AsWrittenExampleStillViolates | EnRewriter.ReconstructSentence, EnRewriter.ReconstructInOrderRebuilds, EnRewriter.InOrderOnCounterexample |

`EnRewriter.RewriteSentence` follows the code and rebuilds the sentence with
the as-written loop, so the discrepancy above is part of the modelled
pipeline. The corrected loop stands beside it, with its own lemmas:
`EnRewriter.ReconstructInOrderRebuilds`, `EnRewriter.ForwardRebuilds` and
`EnRewriter.CleanKeepsSentenceInOrder`.
