/** The Japanese rewrite loop: split the text into sentences, check every
    token's surface and reading against the banned entries, and ask a chat
    model for a replacement word for each violating token, with a bounded
    two-level retry loop and a failure history.

    The chat model and the morphological analyser are oracles passed in as
    functions. A `ChatModel` answers a `Prompt` together with the ordinal of
    the call within the run, so two calls with the same prompt may get
    different replies (the service samples at temperature 0.5); threading
    that ordinal through the loops is also what bounds the number of calls. */
module JaRewriter {
  import opened Wrappers
  import opened Text
  import opened Utils
  import opened JaTokens

  /** `max_attempts`' default: generation calls per inner search. */
  const MaxAttempts: nat := 10
  /** `max_retries`: inner searches per violating token. */
  const MaxRetries: nat := 5

  // ---------------------------------------------------------------------------
  // Sentence splitting on 。！？
  // ---------------------------------------------------------------------------

  predicate IsSentenceMark(c: char)
  {
    c == '。' || c == '！' || c == '？'
  }

  predicate NoMark(s: string)
  {
    forall i :: 0 <= i < |s| ==> !IsSentenceMark(s[i])
  }

  /** A sentence proper: ends with exactly one of 。！？ and holds no other. */
  predicate EndsWithOneMark(s: string)
  {
    |s| >= 1 && IsSentenceMark(s[|s| - 1]) && NoMark(s[..|s| - 1])
  }

  /** The index of the first sentence mark, or the length when there is none. */
  function FirstMark(text: string): (k: nat)
    ensures k <= |text|
    ensures NoMark(text[..k])
    ensures k < |text| ==> IsSentenceMark(text[k])
  {
    if text == [] || IsSentenceMark(text[0]) then 0
    else
      var k := 1 + FirstMark(text[1..]);
      assert text[..k] == [text[0]] + text[1..][..k - 1];
      k
  }

  /** The shape of `re.split` with one capturing group: a mark-free run,
      then any number of (single mark, mark-free run) pairs. */
  predicate IsMarkSplit(parts: seq<string>)
    decreases |parts|
  {
    if |parts| == 1 then NoMark(parts[0])
    else
      |parts| >= 3 && NoMark(parts[0]) && |parts[1]| == 1 && IsSentenceMark(parts[1][0])
      && IsMarkSplit(parts[2..])
  }

  /** Such a split has an odd number of pieces and ends in a mark-free run. */
  lemma {:induction false} MarkSplitOdd(parts: seq<string>)
    requires IsMarkSplit(parts)
    ensures |parts| % 2 == 1
    ensures NoMark(parts[|parts| - 1])
    decreases |parts|
  {
    if |parts| > 1 {
      MarkSplitOdd(parts[2..]);
    }
  }

  /** `re.split(r'([。！？])', text)`: the runs between marks, with every mark
      kept as an element of its own; the pieces add up to the text. */
  function SplitKeepingMarks(text: string): (parts: seq<string>)
    ensures IsMarkSplit(parts)
    ensures Concat(parts) == text
    decreases |text|
  {
    var k := FirstMark(text);
    if k == |text| then
      assert text[..k] == text;
      [text]
    else
      var rest := SplitKeepingMarks(text[k + 1..]);
      var parts := [text[..k], [text[k]]] + rest;
      assert parts[1..][1..] == rest && parts[2..] == rest;
      assert text == text[..k] + [text[k]] + text[k + 1..];
      parts
  }

  /** What follows the last mark. */
  function Remainder(text: string): string
  {
    var parts := SplitKeepingMarks(text);
    parts[|parts| - 1]
  }

  /** The text the segments add up to: all of it, except that a non-empty
      remainder made only of whitespace is dropped. */
  function KeptText(text: string): (r: string)
    ensures r <= text
  {
    var rem := Remainder(text);
    var parts := SplitKeepingMarks(text);
    assert parts == parts[..|parts| - 1] + [rem];
    ConcatAppend(parts[..|parts| - 1], [rem]);
    if IsBlank(rem) then text[..|text| - |rem|] else text
  }

  /** A run followed by its mark is a sentence proper, never blank. */
  lemma RunAndMark(run: string, mark: string)
    requires NoMark(run) && |mark| == 1 && IsSentenceMark(mark[0])
    ensures EndsWithOneMark(run + mark)
    ensures !IsBlank(run + mark)
  {
    var sentence := run + mark;
    assert sentence[..|sentence| - 1] == run;
    assert sentence[|sentence| - 1] == mark[0];
  }

  /** The recombination of the split pieces: each run with the mark after it,
      kept when it is not blank, then the last run when it is not blank. */
  function Recombine(parts: seq<string>): seq<string>
    requires IsMarkSplit(parts)
    decreases |parts|
  {
    if |parts| == 1 then
      if !IsBlank(parts[0]) then [parts[0]] else []
    else
      var sentence := parts[0] + parts[1];
      (if !IsBlank(sentence) then [sentence] else []) + Recombine(parts[2..])
  }

  /** Every sentence but the last ends with exactly one mark; the last one
      does too, or is a mark-free remainder; none is blank. */
  predicate IsSentenceList(r: seq<string>)
  {
    (forall i :: 0 <= i < |r| - 1 ==> EndsWithOneMark(r[i]))
    && (|r| > 0 ==> EndsWithOneMark(r[|r| - 1]) || (NoMark(r[|r| - 1]) && !IsBlank(r[|r| - 1])))
    && (forall i :: 0 <= i < |r| ==> !IsBlank(r[i]))
  }

  /** The recombined pieces of a split form a sentence list. */
  lemma {:induction false} RecombineShape(parts: seq<string>)
    requires IsMarkSplit(parts)
    ensures IsSentenceList(Recombine(parts))
    decreases |parts|
  {
    if |parts| > 1 {
      RunAndMark(parts[0], parts[1]);
      RecombineShape(parts[2..]);
    }
  }

  /** The recombined sentences together with a blank remainder give back
      exactly the pieces: nothing but a blank remainder is lost. */
  lemma {:induction false} RecombineConcat(parts: seq<string>)
    requires IsMarkSplit(parts)
    ensures Concat(Recombine(parts)) + (if IsBlank(parts[|parts| - 1]) then parts[|parts| - 1] else [])
            == Concat(parts)
    decreases |parts|
  {
    if |parts| == 1 {
      ConcatSingle(parts[0]);
      if !IsBlank(parts[0]) {
        ConcatSingle(parts[0]);
      }
    } else {
      var rest := parts[2..];
      var sentence := parts[0] + parts[1];
      var head := if !IsBlank(sentence) then [sentence] else [];
      RunAndMark(parts[0], parts[1]);
      assert head == [sentence];
      RecombineConcat(rest);
      ConcatAppend(head, Recombine(rest));
      ConcatSingle(sentence);
      ConcatPair(parts);
      assert parts[|parts| - 1] == rest[|rest| - 1];
    }
  }

  lemma ConcatSingle(x: string)
    ensures Concat([x]) == x
  {
    assert [x][1..] == [];
  }

  /** Concatenating pieces is taking the first two and then the rest. */
  lemma ConcatPair(parts: seq<string>)
    requires |parts| >= 2
    ensures Concat(parts) == parts[0] + parts[1] + Concat(parts[2..])
  {
    assert parts[1..][1..] == parts[2..];
  }

  lemma RecombineStep(parts: seq<string>, i: nat)
    requires i + 1 < |parts| && IsMarkSplit(parts[i..])
    ensures i + 2 < |parts| && IsMarkSplit(parts[i + 2..])
    ensures Recombine(parts[i..])
            == (if !IsBlank(parts[i] + parts[i + 1]) then [parts[i] + parts[i + 1]] else [])
               + Recombine(parts[i + 2..])
  {
    assert parts[i..][1] == parts[i + 1] && parts[i..][2..] == parts[i + 2..];
  }

  lemma SeqAssoc(a: seq<string>, b: seq<string>, c: seq<string>)
    ensures (a + b) + c == a + (b + c)
  {
  }

  lemma RecombineLast(parts: seq<string>, i: nat)
    requires i == |parts| - 1 && IsMarkSplit(parts[i..])
    ensures Recombine(parts[i..]) == if !IsBlank(parts[i]) then [parts[i]] else []
  {
    assert parts[i..] == [parts[i]];
  }

  /** Splits text into sentences, each keeping its closing 。！？; a final
      remainder without a mark is a sentence of its own unless it is blank.
      The result is the recombination of the pieces of the split; by the
      lemmas above, no sentence is blank, each but the last ends with one
      mark, and together they are the text minus a blank remainder. */
  method SplitIntoSentences(text: string) returns (sentences: seq<string>)
    ensures sentences == Recombine(SplitKeepingMarks(text))
    ensures IsSentenceList(sentences)
    ensures Concat(sentences) == KeptText(text)
  {
    var parts := SplitKeepingMarks(text);
    sentences := [];
    var i := 0;
    while i < |parts| - 1
      invariant 0 <= i < |parts| && IsMarkSplit(parts[i..])
      invariant sentences + Recombine(parts[i..]) == Recombine(parts)
    {
      if i + 1 < |parts| {
        var sentence := parts[i] + parts[i + 1];
        RecombineStep(parts, i);
        ghost var head := if !IsBlank(sentence) then [sentence] else [];
        ghost var before := sentences;
        if !IsBlank(sentence) {
          sentences := sentences + [sentence];
        }
        assert sentences == before + head;
        SeqAssoc(before, head, Recombine(parts[i + 2..]));
      }
      i := i + 2;
    }
    MarkSplitOdd(parts);
    RecombineLast(parts, i);
    if |parts| % 2 == 1 && !IsBlank(parts[|parts| - 1]) {
      sentences := sentences + [parts[|parts| - 1]];
    }
    assert sentences == Recombine(parts);
    RecombineShape(parts);
    RecombineConcat(parts);
  }

  /** A text whose remainder after the last mark is blank but not empty loses
      that remainder: the segments then do not add up to the text. */
  lemma TrailingBlankRemainderDropped()
    ensures KeptText("あ。 ") == "あ。"
  {
    var text := "あ。 ";
    assert text[1..] == "。 " && text[2..] == " " && text[3..] == [];
    assert FirstMark(" ") == 1 by {
      assert " "[1..] == [];
    }
    assert FirstMark(text) == 1 by {
      assert FirstMark(text[1..]) == 0;
    }
    assert SplitKeepingMarks(" ") == [" "];
    assert text[..1] == "あ" && text[2..] == " ";
    assert SplitKeepingMarks(text) == ["あ", "。", " "];
  }

  // ---------------------------------------------------------------------------
  // One generation request and its reply
  // ---------------------------------------------------------------------------

  /** The three prompt strategies, escalating with the attempt index. */
  datatype Strategy = Synonym | BroaderConcept | FreeParaphrase

  function Rank(s: Strategy): nat
  {
    match s
    case Synonym => 0
    case BroaderConcept => 1
    case FreeParaphrase => 2
  }

  /** The strategy tier of an attempt, which depends on its index alone. */
  function StrategyFor(attempt: nat): (s: Strategy)
    ensures s == Synonym <==> attempt < 3
    ensures s == BroaderConcept <==> 3 <= attempt < 6
    ensures s == FreeParaphrase <==> 6 <= attempt
  {
    if attempt < 3 then Synonym
    else if attempt < 6 then BroaderConcept
    else FreeParaphrase
  }

  /** Later attempts never fall back to a more conservative tier. */
  lemma StrategyEscalates(a: nat, b: nat)
    requires a <= b
    ensures Rank(StrategyFor(a)) <= Rank(StrategyFor(b))
  {
  }

  /** What a prompt is built from. Its wording is not modelled; `fullText` is
      present for the context-aware prompt and absent for the plain one, and
      `failed` is the failure history the prompt asks the model to avoid. */
  datatype Prompt = Prompt(
    word: string, sentence: string, fullText: Option<string>,
    banned: seq<string>, failed: seq<string>, pos: string, strategy: Strategy)

  /** A reply: message content, a `None` content, or a raised service error. */
  datatype Reply = Content(text: string) | NoContent | ServiceError

  type ChatModel = (Prompt, nat) -> Reply

  /** The characters removed from a reply: 「」『』"'（）()［］[]. */
  predicate IsQuoteChar(c: char)
  {
    c in "「」『』\"'（）()［］[]"
  }

  function RemoveQuotes(s: string): string
  {
    if s == [] then []
    else
      var rest := RemoveQuotes(s[1..]);
      if IsQuoteChar(s[0]) then rest else [s[0]] + rest
  }

  /** No quote or bracket is left, and every character comes from the input. */
  lemma {:induction false} RemoveQuotesChars(s: string)
    ensures forall c :: c in RemoveQuotes(s) ==> c in s && !IsQuoteChar(c)
  {
    if s != [] {
      RemoveQuotesChars(s[1..]);
      assert forall c :: c in s[1..] ==> c in s;
    }
  }

  /** The candidate word of a reply: strip it, remove quotes and brackets,
      take the first whitespace-separated word. `None` is the reply that
      leaves no word, where `split()[0]` raises and the attempt ends. */
  function CleanReply(content: string): (r: Option<string>)
    ensures r.Some? ==> r.value != [] && NoSpace(r.value)
    ensures r.None? <==> IsBlank(RemoveQuotes(Strip(content)))
  {
    var words := Words(RemoveQuotes(Strip(content)));
    if words == [] then None else Some(words[0])
  }

  /** The candidate word holds no quote or bracket character. */
  lemma CleanReplyUnquoted(content: string)
    ensures CleanReply(content).Some? ==> forall c :: c in CleanReply(content).value ==> !IsQuoteChar(c)
  {
    WordsChars(RemoveQuotes(Strip(content)));
    RemoveQuotesChars(Strip(content));
  }

  predicate Acceptable(word: string, reading: string, banned: seq<string>)
  {
    !ContainsBanned(word, banned) && !ContainsBanned(reading, banned)
  }

  /** A validated candidate: the analyser reads it as at least one token, and
      neither the word nor its joined reading holds a banned entry. */
  predicate IsValidated(word: string, reading: string, banned: seq<string>, tokenize: Tokenizer)
  {
    tokenize(word) != [] && reading == JoinedReading(tokenize(word)) && Acceptable(word, reading, banned)
  }

  /** A rejected candidate: read by the analyser, but it or its reading holds
      a banned entry. */
  predicate IsRejected(word: string, banned: seq<string>, tokenize: Tokenizer)
  {
    tokenize(word) != [] && !Acceptable(word, JoinedReading(tokenize(word)), banned)
  }

  datatype Outcome = Accepted(word: string, reading: string) | Rejected(candidate: string) | Unproductive

  /** What one attempt makes of a reply. */
  function Judge(reply: Reply, banned: seq<string>, tokenize: Tokenizer): (o: Outcome)
    ensures o.Accepted? ==> IsValidated(o.word, o.reading, banned, tokenize)
    ensures o.Rejected? ==> IsRejected(o.candidate, banned, tokenize)
  {
    match reply
    case Content(text) =>
      (match CleanReply(text)
       case None => Unproductive
       case Some(candidate) =>
         var tokens := tokenize(candidate);
         if tokens == [] then Unproductive
         else
           var reading := JoinedReading(tokens);
           if Acceptable(candidate, reading, banned) then Accepted(candidate, reading)
           else Rejected(candidate))
    case NoContent => Unproductive
    case ServiceError => Unproductive
  }

  /** An attempt is unproductive exactly when the reply is missing, failed,
      blank once cleaned, or not read by the analyser; otherwise the
      candidate judged is the first word of the cleaned reply. */
  lemma JudgeCases(reply: Reply, banned: seq<string>, tokenize: Tokenizer)
    ensures Judge(reply, banned, tokenize).Unproductive? <==>
              (reply.NoContent? || reply.ServiceError?
               || CleanReply(reply.text).None? || tokenize(CleanReply(reply.text).value) == [])
    ensures var o := Judge(reply, banned, tokenize);
            !o.Unproductive? ==> reply.Content? && CleanReply(reply.text) == Some(if o.Accepted? then o.word else o.candidate)
  {
  }

  /** The reading returned with the original word on fallback: its first
      token's reading, or the word itself when the analyser yields nothing. */
  function FallbackReading(word: string, tokenize: Tokenizer): string
  {
    var tokens := tokenize(word);
    if tokens != [] then tokens[0].reading else word
  }

  /** `history` extends `start` with entries that are new each time. */
  predicate GrowsWithoutDuplicates(start: seq<string>, history: seq<string>)
  {
    start <= history && forall i :: |start| <= i < |history| ==> history[i] !in history[..i]
  }

  /** Appending a new rejected candidate keeps the history duplicate-free
      and made of rejected candidates past its start. */
  lemma RejectionRecorded(start: seq<string>, history: seq<string>, candidate: string,
                          banned: seq<string>, tokenize: Tokenizer)
    requires GrowsWithoutDuplicates(start, history)
    requires forall i :: |start| <= i < |history| ==> IsRejected(history[i], banned, tokenize)
    requires candidate !in history && IsRejected(candidate, banned, tokenize)
    ensures GrowsWithoutDuplicates(start, history + [candidate])
    ensures forall i :: |start| <= i < |history + [candidate]| ==>
              IsRejected((history + [candidate])[i], banned, tokenize)
  {
    var grown := history + [candidate];
    assert grown[..|history|] == history;
    forall i | |start| <= i < |grown|
      ensures grown[i] !in grown[..i]
    {
      if i < |history| {
        assert grown[..i] == history[..i];
      }
    }
  }

  /** An accepted candidate is never among the rejected ones. */
  lemma ValidatedIsNotRejected(word: string, reading: string, banned: seq<string>, tokenize: Tokenizer)
    requires IsValidated(word, reading, banned, tokenize)
    ensures !IsRejected(word, banned, tokenize)
  {
  }

  // ---------------------------------------------------------------------------
  // The inner search: up to maxAttempts generation calls for one word
  // ---------------------------------------------------------------------------

  /** What stays fixed across the attempts of one inner search. */
  datatype Query = Query(word: string, sentence: string, fullText: Option<string>, banned: seq<string>, pos: string)

  /** The prompt of one attempt: the query, the failure history so far and
      the attempt's strategy. */
  function Ask(q: Query, failed: seq<string>, strategy: Strategy): Prompt
  {
    Prompt(q.word, q.sentence, q.fullText, q.banned, failed, q.pos, strategy)
  }

  /** What attempt `a` of a search makes of its reply, given the failure
      history in force. */
  type Step = (seq<string>, nat) -> Outcome

  /** The attempts of a search started at call `calls0`: attempt `a` is call
      `calls0 + a`, asked with the history and the strategy of its tier, and
      its reply is judged. */
  function Stepper(q: Query, chat: ChatModel, tokenize: Tokenizer, calls0: nat): Step
  {
    (h: seq<string>, a: nat) => Attempt(q, chat, tokenize, calls0, h, a)
  }

  /** Attempt `a` with history `h` judges the reply to call `calls0 + a`. */
  function Attempt(q: Query, chat: ChatModel, tokenize: Tokenizer, calls0: nat, h: seq<string>, a: nat): Outcome
  {
    Judge(chat(Ask(q, h, StrategyFor(a)), calls0 + a), q.banned, tokenize)
  }

  lemma StepperApplies(q: Query, chat: ChatModel, tokenize: Tokenizer, calls0: nat, h: seq<string>, a: nat)
    ensures Stepper(q, chat, tokenize, calls0)(h, a) == Attempt(q, chat, tokenize, calls0, h, a)
  {
  }

  /** The history after an attempt: a rejected candidate joins it unless
      already there. */
  function Recorded(history: seq<string>, o: Outcome): seq<string>
  {
    if o.Rejected? && o.candidate !in history then history + [o.candidate] else history
  }

  /** The failure history in force at attempt `a` of a search that started
      with `failed0`. */
  function HistoryAt(step: Step, failed0: seq<string>, a: nat): seq<string>
  {
    if a == 0 then failed0
    else
      var h := HistoryAt(step, failed0, a - 1);
      Recorded(h, step(h, a - 1))
  }

  /** What attempt `a` of the search makes of its reply. */
  function OutcomeAt(step: Step, failed0: seq<string>, a: nat): Outcome
  {
    step(HistoryAt(step, failed0, a), a)
  }

  /** Every candidate a step rejects is a rejected candidate. */
  ghost predicate RejectsOnlyRejected(step: Step, banned: seq<string>, tokenize: Tokenizer)
  {
    forall h, a :: step(h, a).Rejected? ==> IsRejected(step(h, a).candidate, banned, tokenize)
  }

  /** The judged attempts reject only rejected candidates. */
  lemma StepperRejectsOnlyRejected(q: Query, chat: ChatModel, tokenize: Tokenizer, calls0: nat)
    ensures RejectsOnlyRejected(Stepper(q, chat, tokenize, calls0), q.banned, tokenize)
  {
    var step := Stepper(q, chat, tokenize, calls0);
    forall h, a | step(h, a).Rejected?
      ensures IsRejected(step(h, a).candidate, q.banned, tokenize)
    {
      assert step(h, a) == Attempt(q, chat, tokenize, calls0, h, a);
    }
  }

  /** The history of a search only ever grows, by new rejected candidates. */
  lemma {:induction false} HistoryAtGrows(step: Step, banned: seq<string>, tokenize: Tokenizer,
                                          failed0: seq<string>, a: nat)
    requires RejectsOnlyRejected(step, banned, tokenize)
    ensures GrowsWithoutDuplicates(failed0, HistoryAt(step, failed0, a))
    ensures forall i :: |failed0| <= i < |HistoryAt(step, failed0, a)| ==>
              IsRejected(HistoryAt(step, failed0, a)[i], banned, tokenize)
  {
    if a > 0 {
      HistoryAtGrows(step, banned, tokenize, failed0, a - 1);
      var h := HistoryAt(step, failed0, a - 1);
      var o := step(h, a - 1);
      if o.Rejected? && o.candidate !in h {
        RejectionRecorded(failed0, h, o.candidate, banned, tokenize);
      }
    }
  }

  /** Attempt `a` was accepted. */
  predicate AcceptedAt(step: Step, failed0: seq<string>, a: nat)
  {
    OutcomeAt(step, failed0, a).Accepted?
  }

  /** No attempt before attempt `n` was accepted. */
  predicate NoneAccepted(step: Step, failed0: seq<string>, n: nat)
  {
    forall a :: 0 <= a < n ==> !AcceptedAt(step, failed0, a)
  }

  /** The word, reading and call count an inner search returns. */
  datatype Found = Found(word: string, reading: string, calls: nat)

  /** What an inner search returns: the candidate of the first accepted
      attempt, with the calls made up to and including it; or, once
      `maxAttempts` attempts were made and none was accepted, the original
      word with its fallback reading. */
  predicate SearchReturned(step: Step, failed0: seq<string>, maxAttempts: nat, calls0: nat,
                           original: string, fallbackReading: string, r: Found)
  {
    (calls0 < r.calls <= calls0 + maxAttempts
     && NoneAccepted(step, failed0, r.calls - calls0 - 1)
     && OutcomeAt(step, failed0, r.calls - calls0 - 1) == Accepted(r.word, r.reading))
    || (r.calls == calls0 + maxAttempts
        && NoneAccepted(step, failed0, maxAttempts)
        && r.word == original && r.reading == fallbackReading)
  }

  /** The inner search from attempt `a` on, with `history` in force: an
      accepted attempt ends it, any other records its outcome and hands on
      to the next attempt; once `maxAttempts` attempts are spent, the
      original word comes back with its fallback reading. */
  function SearchFrom(step: Step, history: seq<string>, a: nat, maxAttempts: nat, calls0: nat,
                      original: string, fallbackReading: string): Found
    decreases maxAttempts - a
  {
    if a >= maxAttempts then Found(original, fallbackReading, calls0 + maxAttempts)
    else
      var o := step(history, a);
      if o.Accepted? then Found(o.word, o.reading, calls0 + a + 1)
      else SearchFrom(step, Recorded(history, o), a + 1, maxAttempts, calls0, original, fallbackReading)
  }

  /** The inner search as a function of its inputs. */
  function Search(step: Step, failed0: seq<string>, maxAttempts: nat, calls0: nat,
                  original: string, fallbackReading: string): Found
  {
    SearchFrom(step, failed0, 0, maxAttempts, calls0, original, fallbackReading)
  }

  /** From an attempt reached with no acceptance, the search returns the
      first accepted attempt, or falls back once every attempt is spent. */
  lemma {:induction false} SearchFromReturns(step: Step, failed0: seq<string>, a: nat, maxAttempts: nat, calls0: nat,
                                             original: string, fallbackReading: string)
    requires a <= maxAttempts
    requires NoneAccepted(step, failed0, a)
    ensures SearchReturned(step, failed0, maxAttempts, calls0, original, fallbackReading,
                           SearchFrom(step, HistoryAt(step, failed0, a), a, maxAttempts, calls0, original, fallbackReading))
    decreases maxAttempts - a
  {
    if a < maxAttempts {
      var h := HistoryAt(step, failed0, a);
      var o := step(h, a);
      assert OutcomeAt(step, failed0, a) == o;
      if !o.Accepted? {
        assert HistoryAt(step, failed0, a + 1) == Recorded(h, o);
        assert NoneAccepted(step, failed0, a + 1) by {
          assert !AcceptedAt(step, failed0, a);
        }
        SearchFromReturns(step, failed0, a + 1, maxAttempts, calls0, original, fallbackReading);
      }
    }
  }

  /** The search returns the first accepted attempt, or falls back once
      every attempt is spent. */
  lemma SearchReturns(step: Step, failed0: seq<string>, maxAttempts: nat, calls0: nat,
                      original: string, fallbackReading: string)
    ensures SearchReturned(step, failed0, maxAttempts, calls0, original, fallbackReading,
                           Search(step, failed0, maxAttempts, calls0, original, fallbackReading))
  {
    SearchFromReturns(step, failed0, 0, maxAttempts, calls0, original, fallbackReading);
  }

  /** The inner search for a word: the attempts of `Stepper`, falling back to
      the word and its first token's reading. */
  function SearchFor(q: Query, failed0: seq<string>, maxAttempts: nat, chat: ChatModel, tokenize: Tokenizer,
                     calls0: nat): Found
  {
    Search(Stepper(q, chat, tokenize, calls0), failed0, maxAttempts, calls0, q.word, FallbackReading(q.word, tokenize))
  }

  /** A search returns either a validated candidate or the original word. */
  lemma SearchValidatedOrOriginal(q: Query, failed0: seq<string>, maxAttempts: nat, chat: ChatModel,
                                  tokenize: Tokenizer, calls0: nat)
    ensures var r := SearchFor(q, failed0, maxAttempts, chat, tokenize, calls0);
            calls0 <= r.calls <= calls0 + maxAttempts
    ensures var r := SearchFor(q, failed0, maxAttempts, chat, tokenize, calls0);
            IsValidated(r.word, r.reading, q.banned, tokenize)
            || (r.word == q.word && r.reading == FallbackReading(q.word, tokenize) && r.calls == calls0 + maxAttempts)
  {
    var step := Stepper(q, chat, tokenize, calls0);
    var r := SearchFor(q, failed0, maxAttempts, chat, tokenize, calls0);
    SearchReturns(step, failed0, maxAttempts, calls0, q.word, FallbackReading(q.word, tokenize));
    if calls0 < r.calls <= calls0 + maxAttempts
       && OutcomeAt(step, failed0, r.calls - calls0 - 1) == Accepted(r.word, r.reading) {
      var a := r.calls - calls0 - 1;
      assert OutcomeAt(step, failed0, a) == Attempt(q, chat, tokenize, calls0, HistoryAt(step, failed0, a), a);
    }
  }

  /** One attempt: the prompt for the history and the strategy of the
      attempt's tier, one model call, and the judgement of its reply. */
  method TryOnce(q: Query, history: seq<string>, attempt: nat, chat: ChatModel, tokenize: Tokenizer, calls0: nat)
    returns (outcome: Outcome)
    ensures outcome == Stepper(q, chat, tokenize, calls0)(history, attempt)
    ensures outcome.Accepted? ==> IsValidated(outcome.word, outcome.reading, q.banned, tokenize)
    ensures outcome.Rejected? ==> IsRejected(outcome.candidate, q.banned, tokenize)
  {
    var prompt := Ask(q, history, StrategyFor(attempt));
    var reply := chat(prompt, calls0 + attempt);
    outcome := Judge(reply, q.banned, tokenize);
    StepperApplies(q, chat, tokenize, calls0, history, attempt);
  }

  /** The loop shared by `rewrite_token_with_context` (with the whole text as
      context) and `rewrite_token` (without it). Each attempt asks the model
      once; a reply that is missing, failed or empty once cleaned ends only
      that attempt; a validated candidate is returned at once; a rejected one
      joins the local failure history unless already there. When every
      attempt is spent, the original word comes back with its fallback
      reading. */
  method GenerateReplacement(
    original: string, sentence: string, fullText: Option<string>, banned: seq<string>,
    failed0: seq<string>, pos: string, maxAttempts: nat,
    chat: ChatModel, tokenize: Tokenizer, calls0: nat)
    returns (word: string, reading: string, calls: nat, ghost failed: seq<string>, ghost resolved: bool)
    ensures SearchReturned(Stepper(Query(original, sentence, fullText, banned, pos), chat, tokenize, calls0),
                           failed0, maxAttempts, calls0, original, FallbackReading(original, tokenize),
                           Found(word, reading, calls))
    ensures Found(word, reading, calls)
            == SearchFor(Query(original, sentence, fullText, banned, pos), failed0, maxAttempts, chat, tokenize, calls0)
    ensures resolved ==> IsValidated(word, reading, banned, tokenize) && calls0 < calls
    ensures !resolved ==>
              word == original && reading == FallbackReading(original, tokenize)
              && calls == calls0 + maxAttempts
    ensures failed == HistoryAt(Stepper(Query(original, sentence, fullText, banned, pos), chat, tokenize, calls0),
                                failed0, calls - calls0 - (if resolved then 1 else 0))
    ensures GrowsWithoutDuplicates(failed0, failed)
    ensures forall i :: |failed0| <= i < |failed| ==> IsRejected(failed[i], banned, tokenize)
  {
    var q := Query(original, sentence, fullText, banned, pos);
    ghost var step := Stepper(q, chat, tokenize, calls0);
    ghost var fallbackReading := FallbackReading(original, tokenize);
    SearchReturns(step, failed0, maxAttempts, calls0, original, fallbackReading);
    StepperRejectsOnlyRejected(q, chat, tokenize, calls0);
    var history := failed0;
    calls := calls0;
    for attempt := 0 to maxAttempts
      invariant calls == calls0 + attempt
      invariant history == HistoryAt(step, failed0, attempt)
      invariant Search(step, failed0, maxAttempts, calls0, original, fallbackReading)
                == SearchFrom(step, history, attempt, maxAttempts, calls0, original, fallbackReading)
    {
      var outcome := TryOnce(q, history, attempt, chat, tokenize, calls0);
      calls := calls + 1;
      if outcome.Accepted? {
        HistoryAtGrows(step, banned, tokenize, failed0, attempt);
        return outcome.word, outcome.reading, calls, history, true;
      }
      history := Recorded(history, outcome);
    }
    HistoryAtGrows(step, banned, tokenize, failed0, maxAttempts);
    word, reading, failed, resolved := original, FallbackReading(original, tokenize), history, false;
  }

  /** `rewrite_token_with_context`: the inner search with the whole text in
      the prompt. */
  method RewriteTokenWithContext(
    originalWord: string, currentSentence: string, fullText: string, banned: seq<string>,
    failedAttempts: seq<string>, pos: string, maxAttempts: nat,
    chat: ChatModel, tokenize: Tokenizer, calls0: nat)
    returns (word: string, reading: string, calls: nat)
    ensures SearchReturned(Stepper(Query(originalWord, currentSentence, Some(fullText), banned, pos), chat, tokenize, calls0),
                           failedAttempts, maxAttempts, calls0, originalWord, FallbackReading(originalWord, tokenize),
                           Found(word, reading, calls))
    ensures calls0 <= calls <= calls0 + maxAttempts
    ensures IsValidated(word, reading, banned, tokenize)
            || (word == originalWord && reading == FallbackReading(originalWord, tokenize)
                && calls == calls0 + maxAttempts)
  {
    ghost var failed, resolved;
    word, reading, calls, failed, resolved :=
      GenerateReplacement(originalWord, currentSentence, Some(fullText), banned, failedAttempts,
                          pos, maxAttempts, chat, tokenize, calls0);
  }

  /** `rewrite_token`: the inner search with the sentence as the only context. */
  method RewriteToken(
    originalWord: string, context: string, banned: seq<string>,
    failedAttempts: seq<string>, pos: string, maxAttempts: nat,
    chat: ChatModel, tokenize: Tokenizer, calls0: nat)
    returns (word: string, reading: string, calls: nat)
    ensures SearchReturned(Stepper(Query(originalWord, context, None, banned, pos), chat, tokenize, calls0),
                           failedAttempts, maxAttempts, calls0, originalWord, FallbackReading(originalWord, tokenize),
                           Found(word, reading, calls))
    ensures calls0 <= calls <= calls0 + maxAttempts
    ensures IsValidated(word, reading, banned, tokenize)
            || (word == originalWord && reading == FallbackReading(originalWord, tokenize)
                && calls == calls0 + maxAttempts)
  {
    ghost var failed, resolved;
    word, reading, calls, failed, resolved :=
      GenerateReplacement(originalWord, context, None, banned, failedAttempts,
                          pos, maxAttempts, chat, tokenize, calls0);
  }

  // ---------------------------------------------------------------------------
  // The outer retry loop for one token, and the sentence and text loops
  // ---------------------------------------------------------------------------

  /** A token violates the constraint when its surface or its reading holds a
      banned entry. */
  predicate Violates(t: Token, banned: seq<string>)
  {
    ContainsBanned(t.surface, banned) || ContainsBanned(t.reading, banned)
  }

  /** A word the analyser reads, whose joined reading and surface are clean. */
  predicate IsValidatedWord(word: string, banned: seq<string>, tokenize: Tokenizer)
  {
    IsValidated(word, JoinedReading(tokenize(word)), banned, tokenize)
  }

  /** What may be emitted for a token: a clean token itself; for a violating
      token its own surface (the silent fallback) or a validated candidate. */
  predicate Emittable(t: Token, emitted: string, banned: seq<string>, tokenize: Tokenizer)
  {
    if Violates(t, banned) then emitted == t.surface || IsValidatedWord(emitted, banned, tokenize)
    else emitted == t.surface
  }

  function ViolatingCount(tokens: seq<Token>, banned: seq<string>): (n: nat)
    ensures n <= |tokens|
  {
    if tokens == [] then 0
    else ViolatingCount(tokens[..|tokens| - 1], banned) + (if Violates(tokens[|tokens| - 1], banned) then 1 else 0)
  }

  /** The state of the outer retry loop once it stops: the replacement and
      its reading, the calls made, the token's failure history, and the
      number of inner searches made. */
  datatype Retry = Retry(emitted: string, reading: string, calls: nat, failed: seq<string>, searches: nat)

  /** An inner search as the retry loop sees it: from the failure history
      and the calls made so far, the word, its reading and the calls made by
      its end. */
  type Searcher = (seq<string>, nat) -> Found

  /** The inner search of a token, `rewrite_token_with_context` or
      `rewrite_token` with the default `max_attempts`. */
  function SearcherFor(q: Query, chat: ChatModel, tokenize: Tokenizer): Searcher
  {
    (h: seq<string>, c: nat) => SearchFor(q, h, MaxAttempts, chat, tokenize, c)
  }

  /** What every inner search of `q` guarantees: at most MaxAttempts calls,
      and a validated word or the token itself. */
  ghost predicate SearchesSound(q: Query, tokenize: Tokenizer, search: Searcher)
  {
    forall h: seq<string>, c: nat ::
      c <= search(h, c).calls <= c + MaxAttempts
      && (IsValidated(search(h, c).word, search(h, c).reading, q.banned, tokenize) || search(h, c).word == q.word)
  }

  /** `search` answers as the inner search of `q` does. */
  ghost predicate Searches(q: Query, chat: ChatModel, tokenize: Tokenizer, search: Searcher)
  {
    forall h: seq<string>, c: nat {:trigger SearchFor(q, h, MaxAttempts, chat, tokenize, c)} ::
      search(h, c) == SearchFor(q, h, MaxAttempts, chat, tokenize, c)
  }

  /** A token's own inner search is sound, and is that search. */
  lemma SearcherForSound(q: Query, chat: ChatModel, tokenize: Tokenizer)
    ensures SearchesSound(q, tokenize, SearcherFor(q, chat, tokenize))
    ensures Searches(q, chat, tokenize, SearcherFor(q, chat, tokenize))
  {
    var search := SearcherFor(q, chat, tokenize);
    forall h: seq<string>, c: nat
      ensures c <= search(h, c).calls <= c + MaxAttempts
      ensures IsValidated(search(h, c).word, search(h, c).reading, q.banned, tokenize) || search(h, c).word == q.word
    {
      SearchValidatedOrOriginal(q, h, MaxAttempts, chat, tokenize, c);
    }
  }

  /** The outer retry loop from retry `retry` on. Each inner search gets the
      history so far; the first result whose word and reading are free of
      banned entries stops the loop; a result that is not joins the history
      unless already there; after MaxRetries searches the last result
      stands. Since an inner search returns a validated candidate or the
      original word, the history holds at most the word itself. */
  function Retries(q: Query, search: Searcher, tokenize: Tokenizer, calls: nat, failed: seq<string>, retry: nat)
    : (r: Retry)
    requires retry < MaxRetries
    requires failed == [] || failed == [q.word]
    requires SearchesSound(q, tokenize, search)
    ensures retry < r.searches <= MaxRetries
    ensures calls <= r.calls <= calls + (MaxRetries - retry) * MaxAttempts
    ensures r.failed == [] || r.failed == [q.word]
    ensures r.emitted == q.word || IsValidatedWord(r.emitted, q.banned, tokenize)
    ensures r.searches < MaxRetries ==> Acceptable(r.emitted, r.reading, q.banned)
    ensures !Acceptable(r.emitted, r.reading, q.banned) ==> r.emitted == q.word && r.searches == MaxRetries
    decreases MaxRetries - retry
  {
    var f := search(failed, calls);
    var passed := Acceptable(f.word, f.reading, q.banned);
    var grown := if f.word in failed then failed else failed + [f.word];
    if passed || retry + 1 == MaxRetries then
      Retry(f.word, f.reading, f.calls, if passed then failed else grown, retry + 1)
    else
      Retries(q, search, tokenize, f.calls, grown, retry + 1)
  }

  /** The retry loop of a violating token: its own inner search, from an
      empty history and the calls made so far. */
  function RetriesFor(q: Query, chat: ChatModel, tokenize: Tokenizer, calls: nat): Retry
  {
    SearcherForSound(q, chat, tokenize);
    Retries(q, SearcherFor(q, chat, tokenize), tokenize, calls, [], 0)
  }

  /** One round of the retry loop: the inner search from `calls` with
      history `failed`, then either a stop or the rest of the rounds. */
  lemma RetriesUnfold(q: Query, search: Searcher, tokenize: Tokenizer, calls: nat, failed: seq<string>, retry: nat,
                      f: Found)
    requires retry < MaxRetries
    requires failed == [] || failed == [q.word]
    requires SearchesSound(q, tokenize, search)
    requires f == search(failed, calls)
    ensures f.word == q.word || IsValidatedWord(f.word, q.banned, tokenize)
    ensures !Acceptable(f.word, f.reading, q.banned) ==> f.word == q.word
    ensures var grown := if f.word in failed then failed else failed + [f.word];
            var passed := Acceptable(f.word, f.reading, q.banned);
            Retries(q, search, tokenize, calls, failed, retry)
            == if passed || retry + 1 == MaxRetries then Retry(f.word, f.reading, f.calls, if passed then failed else grown, retry + 1)
               else Retries(q, search, tokenize, f.calls, grown, retry + 1)
  {
  }

  /** One round of the retry loop: an inner search with a copy of the
      token's history, then the acceptance test. `stop` says the loop ends
      here, either because the result passed or because it was the last
      round; otherwise a failed result has joined the history. */
  method RetryRound(q: Query, chat: ChatModel, tokenize: Tokenizer, search: Searcher,
                    calls0: nat, failed0: seq<string>, retry: nat)
    returns (word: string, reading: string, calls: nat, failed: seq<string>, stop: bool)
    requires retry < MaxRetries
    requires failed0 == [] || failed0 == [q.word]
    requires SearchesSound(q, tokenize, search) && Searches(q, chat, tokenize, search)
    ensures failed == [] || failed == [q.word]
    ensures !stop ==> retry + 1 < MaxRetries
    ensures Retries(q, search, tokenize, calls0, failed0, retry)
            == if stop then Retry(word, reading, calls, failed, retry + 1)
               else Retries(q, search, tokenize, calls, failed, retry + 1)
  {
    ghost var history, resolved;
    word, reading, calls, history, resolved :=
      GenerateReplacement(q.word, q.sentence, q.fullText, q.banned, failed0, q.pos,
                          MaxAttempts, chat, tokenize, calls0);
    assert Found(word, reading, calls) == SearchFor(q, failed0, MaxAttempts, chat, tokenize, calls0);
    RetriesUnfold(q, search, tokenize, calls0, failed0, retry, Found(word, reading, calls));
    failed := failed0;
    stop := Acceptable(word, reading, q.banned);
    if !stop {
      if word !in failed {
        failed := failed + [word];
      }
      stop := retry + 1 == MaxRetries;
    }
  }

  /** The retry loop for a violating token from round `retry` on, one round
      per call: a round that stops the loop ends it, any other hands its
      calls and history to the next round. */
  method RetryFrom(q: Query, chat: ChatModel, tokenize: Tokenizer, search: Searcher,
                   calls0: nat, failed0: seq<string>, retry: nat)
    returns (r: Retry)
    requires retry < MaxRetries
    requires failed0 == [] || failed0 == [q.word]
    requires SearchesSound(q, tokenize, search) && Searches(q, chat, tokenize, search)
    ensures r == Retries(q, search, tokenize, calls0, failed0, retry)
    decreases MaxRetries - retry
  {
    var word, reading, calls, failed, stop := RetryRound(q, chat, tokenize, search, calls0, failed0, retry);
    if stop {
      r := Retry(word, reading, calls, failed, retry + 1);
    } else {
      r := RetryFrom(q, chat, tokenize, search, calls, failed, retry + 1);
    }
  }

  /** The body of the token loop of `rewrite_text_with_context` and
      `rewrite_sentence`: a clean token passes through without a call; a
      violating one gets up to MaxRetries inner searches, each given a copy
      of the token's failure history, until one returns an acceptable
      replacement. */
  method ResolveToken(
    token: Token, sentence: string, fullText: Option<string>, banned: seq<string>,
    chat: ChatModel, tokenize: Tokenizer, calls0: nat)
    returns (emitted: string, calls: nat, failedAttempts: seq<string>)
    ensures !Violates(token, banned) ==> emitted == token.surface && calls == calls0 && failedAttempts == []
    ensures Violates(token, banned) ==>
              var r := RetriesFor(Query(token.surface, sentence, fullText, banned, token.pos), chat, tokenize, calls0);
              emitted == r.emitted && calls == r.calls && failedAttempts == r.failed
    ensures Emittable(token, emitted, banned, tokenize)
    ensures calls0 <= calls <= calls0 + MaxRetries * MaxAttempts
    ensures failedAttempts == [] || failedAttempts == [token.surface]
  {
    if !Violates(token, banned) {
      return token.surface, calls0, [];
    }
    var q := Query(token.surface, sentence, fullText, banned, token.pos);
    SearcherForSound(q, chat, tokenize);
    var r := RetryFrom(q, chat, tokenize, SearcherFor(q, chat, tokenize), calls0, [], 0);
    emitted, calls, failedAttempts := r.emitted, r.calls, r.failed;
  }

  /** Every token of `tokens` paired with what was emitted for it. */
  predicate EmittedFor(tokens: seq<Token>, emitted: seq<string>, banned: seq<string>, tokenize: Tokenizer)
  {
    |emitted| == |tokens|
    && forall k :: 0 <= k < |tokens| ==> Emittable(tokens[k], emitted[k], banned, tokenize)
  }

  predicate NoViolations(tokens: seq<Token>, banned: seq<string>)
  {
    forall k :: 0 <= k < |tokens| ==> !Violates(tokens[k], banned)
  }

  /** On tokens that are all clean, the emitted words are the surfaces. */
  lemma CleanTokensEmittedUnchanged(tokens: seq<Token>, emitted: seq<string>, banned: seq<string>, tokenize: Tokenizer)
    requires EmittedFor(tokens, emitted, banned, tokenize)
    requires NoViolations(tokens, banned)
    ensures emitted == Surfaces(tokens)
  {
  }

  /** One more resolved token keeps the emitted words and the call bound of
      the token loop. */
  lemma EmittedForExtend(tokens: seq<Token>, i: nat, emitted: seq<string>, e: string, banned: seq<string>,
                         tokenize: Tokenizer, calls0: nat, before: nat, after: nat)
    requires i < |tokens|
    requires EmittedFor(tokens[..i], emitted, banned, tokenize)
    requires Emittable(tokens[i], e, banned, tokenize)
    requires calls0 <= before <= calls0 + MaxRetries * MaxAttempts * ViolatingCount(tokens[..i], banned)
    requires !Violates(tokens[i], banned) ==> after == before
    requires before <= after <= before + MaxRetries * MaxAttempts
    ensures EmittedFor(tokens[..i + 1], emitted + [e], banned, tokenize)
    ensures calls0 <= after <= calls0 + MaxRetries * MaxAttempts * ViolatingCount(tokens[..i + 1], banned)
  {
    assert tokens[..i + 1][..i] == tokens[..i];
  }

  /** What the token loop emits for one token, and the calls made by then:
      a clean token's surface with no call, or the outcome of the retry
      loop started with an empty history. */
  function ResolvedWord(t: Token, sentence: string, fullText: Option<string>, banned: seq<string>,
                        chat: ChatModel, tokenize: Tokenizer, calls: nat): (string, nat)
  {
    if !Violates(t, banned) then (t.surface, calls)
    else
      var r := RetriesFor(Query(t.surface, sentence, fullText, banned, t.pos), chat, tokenize, calls);
      (r.emitted, r.calls)
  }

  /** The token loop of one sentence: each token resolved in turn, the
      calls made for one handed on to the next. */
  function ResolveAll(tokens: seq<Token>, sentence: string, fullText: Option<string>, banned: seq<string>,
                      chat: ChatModel, tokenize: Tokenizer, calls0: nat): (seq<string>, nat)
  {
    if tokens == [] then ([], calls0)
    else
      var p := ResolveAll(tokens[..|tokens| - 1], sentence, fullText, banned, chat, tokenize, calls0);
      var w := ResolvedWord(tokens[|tokens| - 1], sentence, fullText, banned, chat, tokenize, p.1);
      (p.0 + [w.0], w.1)
  }

  /** Every word the token loop emits is its clean token, the surface or a
      validated word, and it makes at most 50 calls per violating token. */
  lemma {:induction false} ResolveAllSound(tokens: seq<Token>, sentence: string, fullText: Option<string>,
                                          banned: seq<string>, chat: ChatModel, tokenize: Tokenizer, calls0: nat)
    ensures EmittedFor(tokens, ResolveAll(tokens, sentence, fullText, banned, chat, tokenize, calls0).0, banned, tokenize)
    ensures var calls := ResolveAll(tokens, sentence, fullText, banned, chat, tokenize, calls0).1;
            calls0 <= calls <= calls0 + MaxRetries * MaxAttempts * ViolatingCount(tokens, banned)
  {
    if tokens != [] {
      var i := |tokens| - 1;
      ResolveAllSound(tokens[..i], sentence, fullText, banned, chat, tokenize, calls0);
      var p := ResolveAll(tokens[..i], sentence, fullText, banned, chat, tokenize, calls0);
      var w := ResolvedWord(tokens[i], sentence, fullText, banned, chat, tokenize, p.1);
      EmittedForExtend(tokens, i, p.0, w.0, banned, tokenize, calls0, p.1, w.1);
      assert tokens[..i + 1] == tokens;
    }
  }

  /** A sentence with no violating token is emitted as its surfaces, with
      no call to the chat model. */
  lemma {:induction false} ResolveAllClean(tokens: seq<Token>, sentence: string, fullText: Option<string>,
                                          banned: seq<string>, chat: ChatModel, tokenize: Tokenizer, calls0: nat)
    requires NoViolations(tokens, banned)
    ensures ResolveAll(tokens, sentence, fullText, banned, chat, tokenize, calls0) == (Surfaces(tokens), calls0)
  {
    if tokens != [] {
      var i := |tokens| - 1;
      assert NoViolations(tokens[..i], banned);
      ResolveAllClean(tokens[..i], sentence, fullText, banned, chat, tokenize, calls0);
      assert Surfaces(tokens) == Surfaces(tokens[..i]) + [tokens[i].surface];
    }
  }

  /** The per-sentence token loop: tokenize, resolve each token, and join the
      emitted words with no separator. */
  method RewriteSentenceTokens(
    sentence: string, fullText: Option<string>, banned: seq<string>,
    chat: ChatModel, tokenize: Tokenizer, calls0: nat)
    returns (rewritten: string, calls: nat, emitted: seq<string>)
    ensures (emitted, calls) == ResolveAll(tokenize(sentence), sentence, fullText, banned, chat, tokenize, calls0)
    ensures EmittedFor(tokenize(sentence), emitted, banned, tokenize)
    ensures rewritten == Concat(emitted)
    ensures calls0 <= calls <= calls0 + MaxRetries * MaxAttempts * ViolatingCount(tokenize(sentence), banned)
  {
    var tokens := tokenize(sentence);
    var newTokens: seq<string> := [];
    calls := calls0;
    for i := 0 to |tokens|
      invariant (newTokens, calls) == ResolveAll(tokens[..i], sentence, fullText, banned, chat, tokenize, calls0)
    {
      var e, after, failed := ResolveToken(tokens[i], sentence, fullText, banned, chat, tokenize, calls);
      assert tokens[..i + 1][..i] == tokens[..i];
      newTokens, calls := newTokens + [e], after;
    }
    assert tokens[..|tokens|] == tokens;
    ResolveAllSound(tokens, sentence, fullText, banned, chat, tokenize, calls0);
    rewritten, emitted := Concat(newTokens), newTokens;
  }

  /** `rewrite_sentence`: one sentence, each violating token searched with
      the sentence as its only context. */
  method RewriteSentence(
    sentence: string, banned: seq<string>, chat: ChatModel, tokenize: Tokenizer)
    returns (rewritten: string, emitted: seq<string>)
    ensures emitted == ResolveAll(tokenize(sentence), sentence, None, banned, chat, tokenize, 0).0
    ensures EmittedFor(tokenize(sentence), emitted, banned, tokenize)
    ensures rewritten == Concat(emitted)
    ensures NoViolations(tokenize(sentence), banned) ==> rewritten == Concat(Surfaces(tokenize(sentence)))
  {
    var calls;
    rewritten, calls, emitted := RewriteSentenceTokens(sentence, None, banned, chat, tokenize, 0);
    if NoViolations(tokenize(sentence), banned) {
      CleanTokensEmittedUnchanged(tokenize(sentence), emitted, banned, tokenize);
    }
  }

  function ViolatingTotal(sentences: seq<string>, banned: seq<string>, tokenize: Tokenizer): nat
  {
    if sentences == [] then 0
    else ViolatingTotal(sentences[..|sentences| - 1], banned, tokenize)
         + ViolatingCount(tokenize(sentences[|sentences| - 1]), banned)
  }

  /** The analyser gives back every character of a sentence as some token's surface. */
  predicate SurfacesCover(sentence: string, tokenize: Tokenizer)
  {
    Concat(Surfaces(tokenize(sentence))) == sentence
  }

  lemma MulDistributes(k: nat, a: nat, b: nat)
    ensures k * (a + b) == k * a + k * b
  {
  }

  /** One sentence's rewrite: what was emitted for each of its tokens, and
      the emitted words joined. */
  predicate RewroteSentence(sentence: string, emitted: seq<string>, output: string, banned: seq<string>, tokenize: Tokenizer)
  {
    EmittedFor(tokenize(sentence), emitted, banned, tokenize) && output == Concat(emitted)
  }

  /** When every sentence is clean and covered by its tokens' surfaces, each
      rewritten sentence is the sentence itself. */
  lemma CleanSentencesUnchanged(
    sentences: seq<string>, emitted: seq<seq<string>>, outputs: seq<string>,
    banned: seq<string>, tokenize: Tokenizer)
    requires |outputs| == |emitted| == |sentences|
    requires forall i :: 0 <= i < |sentences| ==> RewroteSentence(sentences[i], emitted[i], outputs[i], banned, tokenize)
    requires forall i :: 0 <= i < |sentences| ==>
               NoViolations(tokenize(sentences[i]), banned) && SurfacesCover(sentences[i], tokenize)
    ensures outputs == sentences
  {
    forall k | 0 <= k < |sentences|
      ensures outputs[k] == sentences[k]
    {
      CleanTokensEmittedUnchanged(tokenize(sentences[k]), emitted[k], banned, tokenize);
    }
  }

  /** The sentence loop of `rewrite_text_with_context` as a specification:
      the token loop of each sentence in turn, with the whole text in the
      prompt, the calls made for one sentence handed on to the next. */
  function RewriteAll(sentences: seq<string>, fullText: string, banned: seq<string>,
                      chat: ChatModel, tokenize: Tokenizer, calls0: nat): (seq<seq<string>>, nat)
  {
    if sentences == [] then ([], calls0)
    else
      var p := RewriteAll(sentences[..|sentences| - 1], fullText, banned, chat, tokenize, calls0);
      var last := sentences[|sentences| - 1];
      var w := ResolveAll(tokenize(last), last, Some(fullText), banned, chat, tokenize, p.1);
      (p.0 + [w.0], w.1)
  }

  /** A text whose sentences hold no violating token makes no call, and each
      sentence is emitted as its surfaces. */
  lemma {:induction false} RewriteAllClean(sentences: seq<string>, fullText: string, banned: seq<string>,
                                          chat: ChatModel, tokenize: Tokenizer, calls0: nat)
    requires forall i :: 0 <= i < |sentences| ==> NoViolations(tokenize(sentences[i]), banned)
    ensures var r := RewriteAll(sentences, fullText, banned, chat, tokenize, calls0);
            r.1 == calls0 && |r.0| == |sentences|
            && forall i :: 0 <= i < |sentences| ==> r.0[i] == Surfaces(tokenize(sentences[i]))
  {
    if sentences != [] {
      var n := |sentences| - 1;
      var last := sentences[n];
      RewriteAllClean(sentences[..n], fullText, banned, chat, tokenize, calls0);
      ResolveAllClean(tokenize(last), last, Some(fullText), banned, chat, tokenize, calls0);
    }
  }

  /** The sentence loop of `rewrite_text_with_context`: every sentence is
      rewritten in order with the whole text as context, and the generation
      calls are counted across all of them. */
  method RewriteSentences(
    sentences: seq<string>, fullText: string, banned: seq<string>, chat: ChatModel, tokenize: Tokenizer)
    returns (outputs: seq<string>, calls: nat, emitted: seq<seq<string>>)
    ensures (emitted, calls) == RewriteAll(sentences, fullText, banned, chat, tokenize, 0)
    ensures |outputs| == |emitted| == |sentences|
    ensures forall i :: 0 <= i < |sentences| ==>
              RewroteSentence(sentences[i], emitted[i], outputs[i], banned, tokenize)
    ensures calls <= MaxRetries * MaxAttempts * ViolatingTotal(sentences, banned, tokenize)
  {
    outputs, emitted, calls := [], [], 0;
    for i := 0 to |sentences|
      invariant (emitted, calls) == RewriteAll(sentences[..i], fullText, banned, chat, tokenize, 0)
      invariant |outputs| == i && |emitted| == i
      invariant forall k :: 0 <= k < i ==> RewroteSentence(sentences[k], emitted[k], outputs[k], banned, tokenize)
      invariant calls <= MaxRetries * MaxAttempts * ViolatingTotal(sentences[..i], banned, tokenize)
    {
      var r;
      var e;
      ghost var outputsBefore, emittedBefore := outputs, emitted;
      r, calls, e := RewriteSentenceTokens(sentences[i], Some(fullText), banned, chat, tokenize, calls);
      assert sentences[..i + 1][..i] == sentences[..i];
      outputs := outputs + [r];
      emitted := emitted + [e];
      assert forall k :: 0 <= k < i + 1 ==> RewroteSentence(sentences[k], emitted[k], outputs[k], banned, tokenize) by {
        forall k | 0 <= k < i + 1
          ensures RewroteSentence(sentences[k], emitted[k], outputs[k], banned, tokenize)
        {
          if k < i {
            assert emitted[k] == emittedBefore[k] && outputs[k] == outputsBefore[k];
          }
        }
      }
      assert calls <= MaxRetries * MaxAttempts * ViolatingTotal(sentences[..i + 1], banned, tokenize) by {
        assert sentences[..i + 1][..i] == sentences[..i];
        MulDistributes(MaxRetries * MaxAttempts, ViolatingTotal(sentences[..i], banned, tokenize),
                       ViolatingCount(tokenize(sentences[i]), banned));
      }
    }
    assert sentences[..|sentences|] == sentences;
  }

  /** `rewrite_text_with_context`: split into sentences, rewrite each with the
      whole text as context, and join the results with no separator. Every
      emitted word is its clean token, the original surface, or a validated
      candidate; the number of generation calls is at most 50 per violating
      token; and a text whose tokens are all clean, read by an analyser that
      covers each sentence, comes back as the kept part of the text. */
  method RewriteTextWithContext(
    text: string, banned: seq<string>, chat: ChatModel, tokenize: Tokenizer)
    returns (rewritten: string, calls: nat,
             sentences: seq<string>, rewrittenSentences: seq<string>, emitted: seq<seq<string>>)
    ensures sentences == Recombine(SplitKeepingMarks(text))
    ensures Concat(sentences) == KeptText(text)
    ensures (emitted, calls) == RewriteAll(sentences, text, banned, chat, tokenize, 0)
    ensures |rewrittenSentences| == |emitted| == |sentences|
    ensures forall i :: 0 <= i < |sentences| ==>
              RewroteSentence(sentences[i], emitted[i], rewrittenSentences[i], banned, tokenize)
    ensures rewritten == Concat(rewrittenSentences)
    ensures calls <= MaxRetries * MaxAttempts * ViolatingTotal(sentences, banned, tokenize)
    ensures (forall i :: 0 <= i < |sentences| ==>
               NoViolations(tokenize(sentences[i]), banned) && SurfacesCover(sentences[i], tokenize))
            ==> rewritten == KeptText(text)
  {
    var parts := SplitIntoSentences(text);
    var outputs;
    outputs, calls, emitted := RewriteSentences(parts, text, banned, chat, tokenize);
    rewritten := Concat(outputs);
    sentences, rewrittenSentences := parts, outputs;
    if forall i :: 0 <= i < |sentences| ==>
         NoViolations(tokenize(sentences[i]), banned) && SurfacesCover(sentences[i], tokenize) {
      CleanSentencesUnchanged(sentences, emitted, rewrittenSentences, banned, tokenize);
    }
  }
}
