/** Selection of the base sentences: every source sentence whose stripped
    text is 20 to 60 characters long and holds hiragana or kanji is a
    candidate; at most 200 candidates are kept, and the kept ones are
    numbered from 0 with a fixed genre and a source id naming the original
    sentence. */
module GenerateBase {
  import opened Text

  const MinLength: nat := 20
  const MaxLength: nat := 60
  const MaxBase: nat := 200

  /** A hiragana (U+3041 to U+3093) or a kanji (U+4E00 to U+9FA5): the two
      ranges of the character class the source searches for. */
  predicate IsJapaneseChar(c: char)
  {
    ('\U{3041}' <= c <= '\U{3093}') || ('\U{4E00}' <= c <= '\U{9FA5}')
  }

  /** A search for one such character, from the left. */
  function HasJapanese(text: string): bool
  {
    if text == [] then false
    else IsJapaneseChar(text[0]) || HasJapanese(text[1..])
  }

  /** The search succeeds exactly when some character is in the ranges. */
  lemma {:induction false} HasJapaneseIff(text: string)
    ensures HasJapanese(text) <==> exists i :: 0 <= i < |text| && IsJapaneseChar(text[i])
  {
    if text != [] {
      HasJapaneseIff(text[1..]);
      if HasJapanese(text[1..]) {
        var i :| 0 <= i < |text[1..]| && IsJapaneseChar(text[1..][i]);
        assert IsJapaneseChar(text[i + 1]);
      }
      if exists i :: 0 <= i < |text| && IsJapaneseChar(text[i]) {
        var i :| 0 <= i < |text| && IsJapaneseChar(text[i]);
        if i > 0 {
          assert IsJapaneseChar(text[1..][i - 1]);
        }
      }
    }
  }

  /** A sentence of the source corpus: its id and its raw text. */
  datatype SourceRow = SourceRow(id: string, text: string)

  /** A candidate: the original id and the stripped text. */
  type Candidate = (string, string)

  /** The length and script filters a stripped text must pass. */
  predicate Keeps(text: string)
  {
    MinLength <= |text| <= MaxLength && HasJapanese(text)
  }

  /** The candidate a source row yields once stripped. */
  function CandidateOf(row: SourceRow): Candidate
  {
    (row.id, Strip(row.text))
  }

  /** The candidate passes both filters. */
  predicate KeepsCandidate(c: Candidate)
  {
    Keeps(c.1)
  }

  /** `f` of each of the first `n` elements, kept when `p` accepts it, in
      order. */
  function Selected<A, B>(xs: seq<A>, f: A -> B, p: B -> bool, n: nat): (r: seq<B>)
    requires n <= |xs|
    ensures |r| <= n
  {
    if n == 0 then []
    else
      var before := Selected(xs, f, p, n - 1);
      if p(f(xs[n - 1])) then before + [f(xs[n - 1])] else before
  }

  /** The selection holds exactly the accepted images of the first `n`
      elements. */
  lemma {:induction false} SelectedExactly<A, B>(xs: seq<A>, f: A -> B, p: B -> bool, n: nat)
    requires n <= |xs|
    ensures forall y :: y in Selected(xs, f, p, n) ==> p(y) && exists k :: 0 <= k < n && f(xs[k]) == y
    ensures forall k :: 0 <= k < n && p(f(xs[k])) ==> f(xs[k]) in Selected(xs, f, p, n)
  {
    if n > 0 {
      SelectedExactly(xs, f, p, n - 1);
      var before := Selected(xs, f, p, n - 1);
      forall y | y in Selected(xs, f, p, n)
        ensures p(y) && exists k :: 0 <= k < n && f(xs[k]) == y
      {
        if y in before {
          var k :| 0 <= k < n - 1 && f(xs[k]) == y;
        } else {
          assert f(xs[n - 1]) == y;
        }
      }
    }
  }

  /** The candidates among the first `n` source rows, in corpus order. */
  function Candidates(rows: seq<SourceRow>, n: nat): (r: seq<Candidate>)
    requires n <= |rows|
    ensures |r| <= n
  {
    Selected(rows, CandidateOf, KeepsCandidate, n)
  }

  /** One more row adds its candidate exactly when its stripped text
      passes the filters. */
  lemma CandidatesNext(rows: seq<SourceRow>, r: nat)
    requires r < |rows|
    ensures var text := Strip(rows[r].text);
            Candidates(rows, r + 1)
            == if Keeps(text) then Candidates(rows, r) + [(rows[r].id, text)] else Candidates(rows, r)
  {
    assert KeepsCandidate(CandidateOf(rows[r])) == Keeps(Strip(rows[r].text));
  }

  /** The filtering loop over the corpus: strips each text and keeps the
      row's id and text when the text passes both filters. */
  method CollectCandidates(rows: seq<SourceRow>) returns (candidates: seq<Candidate>)
    ensures candidates == Candidates(rows, |rows|)
  {
    candidates := [];
    for r := 0 to |rows|
      invariant candidates == Candidates(rows, r)
    {
      var text := Strip(rows[r].text);
      CandidatesNext(rows, r);
      if !(MinLength <= |text| <= MaxLength) {
        continue;
      }
      if !HasJapanese(text) {
        continue;
      }
      candidates := candidates + [(rows[r].id, text)];
    }
  }

  /** Every candidate comes from one of the first `n` rows and passes the
      filters, and every such row that passes them is a candidate. */
  lemma CandidatesExactly(rows: seq<SourceRow>, n: nat)
    requires n <= |rows|
    ensures forall c :: c in Candidates(rows, n) ==>
              Keeps(c.1) && exists k :: 0 <= k < n && CandidateOf(rows[k]) == c
    ensures forall k :: 0 <= k < n && Keeps(CandidateOf(rows[k]).1) ==> CandidateOf(rows[k]) in Candidates(rows, n)
  {
    SelectedExactly(rows, CandidateOf, KeepsCandidate, n);
    forall c | c in Candidates(rows, n)
      ensures Keeps(c.1) && exists k :: 0 <= k < n && CandidateOf(rows[k]) == c
    {
      assert KeepsCandidate(c);
    }
    forall k | 0 <= k < n && Keeps(CandidateOf(rows[k]).1)
      ensures CandidateOf(rows[k]) in Candidates(rows, n)
    {
      assert KeepsCandidate(CandidateOf(rows[k]));
    }
  }

  /** The sampler's promise: `k` distinct positions below `n`. */
  predicate IsSample(picks: seq<nat>, n: nat, k: nat)
  {
    |picks| == k
    && (forall i :: 0 <= i < |picks| ==> picks[i] < n)
    && (forall i, j :: 0 <= i < j < |picks| ==> picks[i] != picks[j])
  }

  /** The candidates at the given positions, in the order of the positions. */
  function Pick(candidates: seq<Candidate>, picks: seq<nat>): (r: seq<Candidate>)
    requires forall i :: 0 <= i < |picks| ==> picks[i] < |candidates|
    ensures |r| == |picks|
  {
    if picks == [] then []
    else Pick(candidates, picks[..|picks| - 1]) + [candidates[picks[|picks| - 1]]]
  }

  /** Up to 200 candidates: all of them, in order, when there are at most
      200; otherwise the 200 at the positions the sampler drew. */
  function Sampled(candidates: seq<Candidate>, picks: seq<nat>): seq<Candidate>
    requires |candidates| > MaxBase ==> IsSample(picks, |candidates|, MaxBase)
  {
    if |candidates| > MaxBase then Pick(candidates, picks) else candidates
  }

  /** At most 200 are kept, all of them when there are at most 200, and
      each kept one is a candidate. */
  lemma SampledShape(candidates: seq<Candidate>, picks: seq<nat>)
    requires |candidates| > MaxBase ==> IsSample(picks, |candidates|, MaxBase)
    ensures |Sampled(candidates, picks)| == if |candidates| > MaxBase then MaxBase else |candidates|
    ensures |candidates| <= MaxBase ==> Sampled(candidates, picks) == candidates
    ensures forall c :: c in Sampled(candidates, picks) ==> c in candidates
  {
    if |candidates| > MaxBase {
      PickFrom(candidates, picks);
    }
  }

  /** Every picked element is one of the candidates. */
  lemma {:induction false} PickFrom(candidates: seq<Candidate>, picks: seq<nat>)
    requires forall i :: 0 <= i < |picks| ==> picks[i] < |candidates|
    ensures forall c :: c in Pick(candidates, picks) ==> c in candidates
  {
    if picks != [] {
      PickFrom(candidates, picks[..|picks| - 1]);
      assert candidates[picks[|picks| - 1]] in candidates;
    }
  }

  /** A written row: position, text, genre and source id. */
  datatype BaseRecord = BaseRecord(baseId: nat, text: string, genre: string, sourceId: string)

  const Genre: string := "tatoeba"
  const SourcePrefix: string := "tatoeba:"

  /** The row written for the candidate at position `i`. */
  function RecordAt(i: nat, c: Candidate): BaseRecord
  {
    BaseRecord(i, c.1, Genre, SourcePrefix + c.0)
  }

  /** The rows written for the first `n` kept candidates. */
  function Numbered(chosen: seq<Candidate>, n: nat): (r: seq<BaseRecord>)
    requires n <= |chosen|
    ensures |r| == n
  {
    if n == 0 then [] else Numbered(chosen, n - 1) + [RecordAt(n - 1, chosen[n - 1])]
  }

  /** The writing loop: enumerates the kept candidates. */
  method NumberRows(chosen: seq<Candidate>) returns (out: seq<BaseRecord>)
    ensures out == Numbered(chosen, |chosen|)
  {
    out := [];
    for i := 0 to |chosen|
      invariant out == Numbered(chosen, i)
    {
      var (origId, text) := chosen[i];
      out := out + [BaseRecord(i, text, "tatoeba", "tatoeba:" + origId)];
    }
  }

  /** Row `i` carries position `i`, the text of the `i`-th kept candidate,
      the fixed genre and the original id behind the prefix. */
  lemma {:induction false} NumberedFields(chosen: seq<Candidate>, n: nat)
    requires n <= |chosen|
    ensures forall i :: 0 <= i < n ==>
              Numbered(chosen, n)[i].baseId == i && Numbered(chosen, n)[i].text == chosen[i].1
              && Numbered(chosen, n)[i].genre == Genre && Numbered(chosen, n)[i].sourceId == SourcePrefix + chosen[i].0
  {
    if n > 0 {
      NumberedFields(chosen, n - 1);
      var init := Numbered(chosen, n - 1);
      var last := RecordAt(n - 1, chosen[n - 1]);
      forall i | 0 <= i < n - 1
        ensures (init + [last])[i] == init[i]
      {
      }
    }
  }

  /** The whole selection: filter the corpus, sample it down to 200 when it
      is larger, and number the result. `picks` stands for the sampler's
      draw. */
  method GenerateBaseRows(rows: seq<SourceRow>, picks: seq<nat>) returns (out: seq<BaseRecord>)
    requires |Candidates(rows, |rows|)| > MaxBase ==> IsSample(picks, |Candidates(rows, |rows|)|, MaxBase)
    ensures out == Numbered(Sampled(Candidates(rows, |rows|), picks), |Sampled(Candidates(rows, |rows|), picks)|)
  {
    var candidates := CollectCandidates(rows);
    if |candidates| > MaxBase {
      candidates := Pick(candidates, picks);
    }
    out := NumberRows(candidates);
  }

  /** Every sampled candidate passes both filters and comes from some row. */
  lemma SampledFromRows(rows: seq<SourceRow>, picks: seq<nat>)
    requires |Candidates(rows, |rows|)| > MaxBase ==> IsSample(picks, |Candidates(rows, |rows|)|, MaxBase)
    ensures forall c :: c in Sampled(Candidates(rows, |rows|), picks) ==>
              Keeps(c.1) && exists k :: 0 <= k < |rows| && CandidateOf(rows[k]) == c
  {
    SampledShape(Candidates(rows, |rows|), picks);
    CandidatesExactly(rows, |rows|);
  }

  /** At most 200 rows are written; each row's text is the stripped text of
      some corpus sentence, passes both filters, and the row's source id
      names that sentence. */
  lemma BaseRowsSound(rows: seq<SourceRow>, picks: seq<nat>)
    requires |Candidates(rows, |rows|)| > MaxBase ==> IsSample(picks, |Candidates(rows, |rows|)|, MaxBase)
    ensures var chosen := Sampled(Candidates(rows, |rows|), picks);
            var out := Numbered(chosen, |chosen|);
            |out| <= MaxBase
            && forall i :: 0 <= i < |out| ==>
                 out[i].baseId == i && out[i].genre == Genre
                 && MinLength <= |out[i].text| <= MaxLength && HasJapanese(out[i].text)
                 && exists k :: 0 <= k < |rows| && out[i].text == Strip(rows[k].text)
                                && out[i].sourceId == SourcePrefix + rows[k].id
  {
    var candidates := Candidates(rows, |rows|);
    var chosen := Sampled(candidates, picks);
    var out := Numbered(chosen, |chosen|);
    SampledShape(candidates, picks);
    SampledFromRows(rows, picks);
    NumberedFields(chosen, |chosen|);
    forall i | 0 <= i < |out|
      ensures MinLength <= |out[i].text| <= MaxLength && HasJapanese(out[i].text)
              && exists k :: 0 <= k < |rows| && out[i].text == Strip(rows[k].text)
                             && out[i].sourceId == SourcePrefix + rows[k].id
    {
      assert chosen[i] in chosen;
      var k :| 0 <= k < |rows| && CandidateOf(rows[k]) == chosen[i];
    }
  }

  /** When at most 200 sentences pass the filters, every one of them is
      written, in corpus order. */
  lemma FewCandidatesAllKept(rows: seq<SourceRow>, picks: seq<nat>)
    requires |Candidates(rows, |rows|)| <= MaxBase
    ensures var out := Numbered(Sampled(Candidates(rows, |rows|), picks), |Candidates(rows, |rows|)|);
            forall k :: 0 <= k < |Candidates(rows, |rows|)| ==> out[k].text == Candidates(rows, |rows|)[k].1
  {
    var candidates := Candidates(rows, |rows|);
    NumberedFields(candidates, |candidates|);
  }
}
