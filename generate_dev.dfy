/** Expansion of the base sentences into experiment records: every base
    sentence is paired with the fixed banned sets whose entries occur in it,
    at most three per sentence, and the records are numbered consecutively. */
module GenerateDev {
  import opened Wrappers
  import opened Text
  import opened Utils
  import opened Cli

  /** A banned set: its difficulty label and its comma-separated entries. */
  datatype BannedSet = BannedSet(constraintType: string, bannedStr: string)

  /** The agreed banned sets, in the order they are tried. */
  const BannedSets: seq<BannedSet> := [
    BannedSet("easy", "い"),
    BannedSet("easy", "さ"),
    BannedSet("easy", "ら"),
    BannedSet("medium", "あ,い,う,え,お"),
    BannedSet("medium", "か,き,く,け,こ")
  ]

  const MaxSetsPerSentence: nat := 3

  /** A base row: its text, and the optional genre and source columns. */
  datatype BaseRow = BaseRow(text: string, genre: Option<string>, sourceId: Option<string>)

  /** An output record. */
  datatype DevRecord = DevRecord(id: nat, text: string, bannedChars: string, constraintType: string,
                                 genre: string, sourceId: string)

  /** Some entry of the set occurs in the text. */
  predicate Qualifies(text: string, bannedSet: BannedSet)
  {
    ContainsBanned(text, ParseBannedChars(bannedSet.bannedStr))
  }

  /** The qualification test for one text, as a predicate on sets. */
  function QualifiesIn(text: string): BannedSet -> bool
  {
    bannedSet => Qualifies(text, bannedSet)
  }

  /** What a loop over `xs` keeps when it takes each element `p` accepts and
      stops once `limit` are taken. */
  function PickUpTo<T>(xs: seq<T>, p: T -> bool, limit: nat): (r: seq<T>)
    ensures |r| <= limit
  {
    if xs == [] then []
    else
      var before := PickUpTo(xs[..|xs| - 1], p, limit);
      if |before| < limit && p(xs[|xs| - 1]) then before + [xs[|xs| - 1]] else before
  }

  /** The elements `p` accepts, in order. */
  function Filter<T>(xs: seq<T>, p: T -> bool): seq<T>
  {
    if xs == [] then []
    else
      var before := Filter(xs[..|xs| - 1], p);
      if p(xs[|xs| - 1]) then before + [xs[|xs| - 1]] else before
  }

  /** The sets one sentence takes: each qualifying set in order, until three
      are taken. */
  function Picked(text: string, sets: seq<BannedSet>): seq<BannedSet>
  {
    PickUpTo(sets, QualifiesIn(text), MaxSetsPerSentence)
  }

  /** The filter keeps exactly the accepted elements. */
  lemma {:induction false} FilterExactly<T>(xs: seq<T>, p: T -> bool)
    ensures forall x :: x in Filter(xs, p) <==> x in xs && p(x)
  {
    if xs != [] {
      var init, last := xs[..|xs| - 1], xs[|xs| - 1];
      FilterExactly(init, p);
      forall x
        ensures x in xs <==> x in init || x == last
      {
        if x in xs {
          var i :| 0 <= i < |xs| && xs[i] == x;
          if i < |init| {
            assert init[i] == x;
          }
        }
        if x in init {
          var i :| 0 <= i < |init| && init[i] == x;
          assert xs[i] == x;
        }
        if x == last {
          assert xs[|xs| - 1] == x;
        }
      }
    }
  }

  /** The loop keeps exactly the first `limit` accepted elements. */
  lemma {:induction false} PickUpToFirst<T>(xs: seq<T>, p: T -> bool, limit: nat)
    ensures var f := Filter(xs, p);
            PickUpTo(xs, p, limit) == if |f| <= limit then f else f[..limit]
  {
    if xs != [] {
      var init, last := xs[..|xs| - 1], xs[|xs| - 1];
      PickUpToFirst(init, p, limit);
      var f := Filter(init, p);
      if p(last) && |f| >= limit {
        assert (f + [last])[..limit] == f[..limit];
        if |f| == limit {
          assert f[..limit] == f;
        }
      }
    }
  }

  /** Once `limit` elements are taken, later elements change nothing. */
  lemma {:induction false} PickUpToSaturated<T>(xs: seq<T>, p: T -> bool, limit: nat, n: nat)
    requires n <= |xs| && |PickUpTo(xs[..n], p, limit)| >= limit
    ensures PickUpTo(xs, p, limit) == PickUpTo(xs[..n], p, limit)
    decreases |xs| - n
  {
    if n < |xs| {
      var init := xs[..|xs| - 1];
      assert init[..n] == xs[..n];
      PickUpToSaturated(init, p, limit, n);
    } else {
      assert xs[..n] == xs;
    }
  }

  /** `row.get("genre", "tatoeba")`. */
  function Genre(row: BaseRow): string
  {
    if row.genre.Some? then row.genre.value else "tatoeba"
  }

  /** `row.get("source_id", "")`. */
  function SourceId(row: BaseRow): string
  {
    if row.sourceId.Some? then row.sourceId.value else ""
  }

  /** What the loop reads from a base row: the stripped text, the genre and
      the source id. */
  datatype Sentence = Sentence(text: string, genre: string, sourceId: string)

  function ReadRow(row: BaseRow): Sentence
  {
    Sentence(Strip(row.text), Genre(row), SourceId(row))
  }

  /** `f` of each of the first `n` elements, in order. */
  function MapFirst<A, B>(xs: seq<A>, f: A -> B, n: nat): (r: seq<B>)
    requires n <= |xs|
    ensures |r| == n
  {
    if n == 0 then [] else MapFirst(xs, f, n - 1) + [f(xs[n - 1])]
  }

  /** Element `k` of the image is `f` of element `k`. */
  lemma {:induction false} MapFirstAt<A, B>(xs: seq<A>, f: A -> B, n: nat, k: nat)
    requires k < n <= |xs|
    ensures MapFirst(xs, f, n)[k] == f(xs[k])
  {
    if k < n - 1 {
      MapFirstAt(xs, f, n - 1, k);
    }
  }

  /** The sentences read from the base rows. */
  function ReadRows(rows: seq<BaseRow>): (r: seq<Sentence>)
    ensures |r| == |rows|
  {
    MapFirst(rows, ReadRow, |rows|)
  }

  /** The record pairing a sentence with one banned set. */
  function RecordFor(id: nat, sentence: Sentence, bannedSet: BannedSet): DevRecord
  {
    DevRecord(id, sentence.text, bannedSet.bannedStr, bannedSet.constraintType, sentence.genre, sentence.sourceId)
  }

  /** The records of one sentence for the first `n` sets it picked,
      numbered from `firstId`. */
  function FirstRecords(firstId: nat, sentence: Sentence, picked: seq<BannedSet>, n: nat): (r: seq<DevRecord>)
    requires n <= |picked|
    ensures |r| == n
  {
    if n == 0 then []
    else FirstRecords(firstId, sentence, picked, n - 1) + [RecordFor(firstId + n - 1, sentence, picked[n - 1])]
  }

  /** The records of one sentence for all the sets it picked. */
  function SentenceRecords(firstId: nat, sentence: Sentence, picked: seq<BannedSet>): (r: seq<DevRecord>)
    ensures |r| == |picked|
  {
    FirstRecords(firstId, sentence, picked, |picked|)
  }

  /** How each sentence chooses its sets from its text. */
  type Picker = string -> seq<BannedSet>

  /** The picker of the expansion: the qualifying sets among `sets`, at most
      three. */
  function PickerFor(sets: seq<BannedSet>): Picker
  {
    text => Picked(text, sets)
  }

  /** The records of the first `n` sentences, in order and numbered from 0,
      each sentence paired with the sets `pick` chooses for its text. */
  function DevRecords(sentences: seq<Sentence>, pick: Picker, n: nat): seq<DevRecord>
    requires n <= |sentences|
  {
    if n == 0 then []
    else
      var before := DevRecords(sentences, pick, n - 1);
      before + SentenceRecords(|before|, sentences[n - 1], pick(sentences[n - 1].text))
  }

  /** The sets one sentence takes: tries each set in order and stops after
      the third one taken. */
  method PickSets(text: string, sets: seq<BannedSet>) returns (picked: seq<BannedSet>)
    ensures picked == Picked(text, sets)
  {
    picked := [];
    var k := 0;
    while k < |sets|
      invariant 0 <= k <= |sets|
      invariant picked == Picked(text, sets[..k])
      invariant |picked| < MaxSetsPerSentence
    {
      assert sets[..k + 1][..k] == sets[..k];
      assert QualifiesIn(text)(sets[k]) == Qualifies(text, sets[k]);
      var chars := ParseBannedChars(sets[k].bannedStr);
      if ContainsBanned(text, chars) {
        picked := picked + [sets[k]];
        if |picked| >= MaxSetsPerSentence {
          PickUpToSaturated(sets, QualifiesIn(text), MaxSetsPerSentence, k + 1);
          return;
        }
      }
      k := k + 1;
    }
    assert sets[..k] == sets;
  }

  /** The body of the expansion loop for one sentence read from a base
      row: appends a record per picked set, each with the next id. */
  method AppendSentence(records: seq<DevRecord>, sentence: Sentence, sets: seq<BannedSet>) returns (out: seq<DevRecord>)
    ensures out == records + SentenceRecords(|records|, sentence, Picked(sentence.text, sets))
  {
    var picked := PickSets(sentence.text, sets);
    var newId := |records|;
    out := records;
    for i := 0 to |picked|
      invariant newId == |records| + i
      invariant out == records + FirstRecords(|records|, sentence, picked, i)
    {
      out := out + [DevRecord(newId, sentence.text, picked[i].bannedStr, picked[i].constraintType,
                              sentence.genre, sentence.sourceId)];
      newId := newId + 1;
    }
  }

  /** The expansion loop over the base rows with the given banned sets, ids
      running on across rows. */
  method ExpandRecords(baseRows: seq<BaseRow>, sets: seq<BannedSet>) returns (records: seq<DevRecord>)
    ensures records == DevRecords(ReadRows(baseRows), PickerFor(sets), |baseRows|)
  {
    records := [];
    for r := 0 to |baseRows|
      invariant records == DevRecords(ReadRows(baseRows), PickerFor(sets), r)
    {
      var text := Strip(baseRows[r].text);
      var genre := Genre(baseRows[r]);
      var sourceId := SourceId(baseRows[r]);
      var sentence := Sentence(text, genre, sourceId);
      ExpandStep(baseRows, sets, r, sentence);
      records := AppendSentence(records, sentence, sets);
    }
  }

  /** One more sentence appends its records after those of the ones
      before. */
  lemma DevRecordsNext(sentences: seq<Sentence>, pick: Picker, n: nat)
    requires n < |sentences|
    ensures var before := DevRecords(sentences, pick, n);
            DevRecords(sentences, pick, n + 1)
            == before + SentenceRecords(|before|, sentences[n], pick(sentences[n].text))
  {
  }

  /** The records of one more base row follow those of the rows before. */
  lemma ExpandStep(baseRows: seq<BaseRow>, sets: seq<BannedSet>, r: nat, sentence: Sentence)
    requires r < |baseRows| && sentence == ReadRow(baseRows[r])
    ensures var before := DevRecords(ReadRows(baseRows), PickerFor(sets), r);
            DevRecords(ReadRows(baseRows), PickerFor(sets), r + 1)
            == before + SentenceRecords(|before|, sentence, Picked(sentence.text, sets))
  {
    MapFirstAt(baseRows, ReadRow, |baseRows|, r);
    DevRecordsNext(ReadRows(baseRows), PickerFor(sets), r);
  }

  /** The expansion as the script runs it, with the five agreed sets. */
  method GenerateDev(baseRows: seq<BaseRow>) returns (records: seq<DevRecord>)
    ensures records == DevRecords(ReadRows(baseRows), PickerFor(BannedSets), |baseRows|)
  {
    records := ExpandRecords(baseRows, BannedSets);
  }

  /** The records of one sentence are numbered on from `firstId`. */
  lemma {:induction false} SentenceIds(firstId: nat, sentence: Sentence, picked: seq<BannedSet>, n: nat)
    requires n <= |picked|
    ensures forall k :: 0 <= k < n ==> FirstRecords(firstId, sentence, picked, n)[k].id == firstId + k
  {
    if n > 0 {
      SentenceIds(firstId, sentence, picked, n - 1);
      var init := FirstRecords(firstId, sentence, picked, n - 1);
      var last := RecordFor(firstId + n - 1, sentence, picked[n - 1]);
      forall k | 0 <= k < n
        ensures (init + [last])[k].id == firstId + k
      {
        if k < n - 1 {
          assert (init + [last])[k].id == init[k].id;
        } else {
          assert (init + [last])[k].id == last.id;
        }
      }
    }
  }

  /** The ids run 0, 1, 2, ... without gaps. */
  lemma {:induction false} DevIdsConsecutive(sentences: seq<Sentence>, pick: Picker, n: nat)
    requires n <= |sentences|
    ensures forall i :: 0 <= i < |DevRecords(sentences, pick, n)| ==> DevRecords(sentences, pick, n)[i].id == i
  {
    if n > 0 {
      var before: seq<DevRecord> := DevRecords(sentences, pick, n - 1);
      DevIdsConsecutive(sentences, pick, n - 1);
      var sentence := sentences[n - 1];
      var picked := pick(sentence.text);
      var recs: seq<DevRecord> := SentenceRecords(|before|, sentence, picked);
      SentenceIds(|before|, sentence, picked, |picked|);
      assert DevRecords(sentences, pick, n) == before + recs;
      forall i | 0 <= i < |before| + |recs|
        ensures (before + recs)[i].id == i
      {
        if i < |before| {
          assert (before + recs)[i].id == before[i].id;
        } else {
          assert (before + recs)[i].id == recs[i - |before|].id;
        }
      }
    }
  }

  /** The qualification test as a predicate on (text, set) pairs. */
  const QualifyingPair: (string, BannedSet) -> bool := (text, bannedSet) => Qualifies(text, bannedSet)

  /** The record's set is one of `sets`, and `ok` holds of its text and set. */
  predicate RecordFrom(rec: DevRecord, sets: seq<BannedSet>, ok: (string, BannedSet) -> bool)
  {
    BannedSet(rec.constraintType, rec.bannedChars) in sets
    && ok(rec.text, BannedSet(rec.constraintType, rec.bannedChars))
  }

  /** The loop takes only elements of `xs` that `p` accepts. */
  lemma {:induction false} PickUpToSound<T>(xs: seq<T>, p: T -> bool, limit: nat)
    ensures forall x :: x in PickUpTo(xs, p, limit) ==> x in xs && p(x)
  {
    if xs != [] {
      var init := xs[..|xs| - 1];
      PickUpToSound(init, p, limit);
      forall x | x in init
        ensures x in xs
      {
        var i :| 0 <= i < |init| && init[i] == x;
        assert xs[i] == x;
      }
      assert xs[|xs| - 1] in xs;
    }
  }

  /** Every set in `picked` is among `sets` and `ok` accepts it with `text`. */
  ghost predicate SetsFrom(picked: seq<BannedSet>, text: string, sets: seq<BannedSet>,
                           ok: (string, BannedSet) -> bool)
  {
    forall b :: b in picked ==> b in sets && ok(text, b)
  }

  /** `pick` only chooses sets among `sets` that `ok` accepts with the text. */
  ghost predicate PicksFrom(pick: Picker, sets: seq<BannedSet>, ok: (string, BannedSet) -> bool)
  {
    forall text :: SetsFrom(pick(text), text, sets, ok)
  }

  /** Every set the expansion picks is one of the sets, and some entry of it
      occurs in the text. */
  lemma PickerForQualifies(sets: seq<BannedSet>)
    ensures PicksFrom(PickerFor(sets), sets, QualifyingPair)
  {
    forall text, b | b in PickerFor(sets)(text)
      ensures b in sets && QualifyingPair(text, b)
    {
      PickUpToSound(sets, QualifiesIn(text), MaxSetsPerSentence);
      assert QualifiesIn(text)(b);
    }
  }

  /** The record for a set `ok` accepts with the sentence's text is
      accepted. */
  lemma RecordForFrom(id: nat, sentence: Sentence, bannedSet: BannedSet, sets: seq<BannedSet>,
                      ok: (string, BannedSet) -> bool)
    requires bannedSet in sets && ok(sentence.text, bannedSet)
    ensures RecordFrom(RecordFor(id, sentence, bannedSet), sets, ok)
  {
    var rec := RecordFor(id, sentence, bannedSet);
    assert BannedSet(rec.constraintType, rec.bannedChars) == bannedSet;
  }

  /** Records made from accepted sets are accepted. */
  lemma {:induction false} SentenceRecordsFrom(firstId: nat, sentence: Sentence, picked: seq<BannedSet>, n: nat,
                                               sets: seq<BannedSet>, ok: (string, BannedSet) -> bool)
    requires n <= |picked|
    requires SetsFrom(picked, sentence.text, sets, ok)
    ensures forall rec :: rec in FirstRecords(firstId, sentence, picked, n) ==> RecordFrom(rec, sets, ok)
  {
    if n > 0 {
      SentenceRecordsFrom(firstId, sentence, picked, n - 1, sets, ok);
      assert picked[n - 1] in picked;
      RecordForFrom(firstId + n - 1, sentence, picked[n - 1], sets, ok);
    }
  }

  /** When `pick` only chooses sets among `sets` that `ok` accepts with the
      text, every record is accepted. */
  lemma {:induction false} DevRecordsFrom(sentences: seq<Sentence>, pick: Picker, sets: seq<BannedSet>,
                                          ok: (string, BannedSet) -> bool, n: nat)
    requires n <= |sentences|
    requires PicksFrom(pick, sets, ok)
    ensures forall rec :: rec in DevRecords(sentences, pick, n) ==> RecordFrom(rec, sets, ok)
  {
    if n > 0 {
      var before := DevRecords(sentences, pick, n - 1);
      DevRecordsFrom(sentences, pick, sets, ok, n - 1);
      var sentence := sentences[n - 1];
      var picked := pick(sentence.text);
      SentenceRecordsFrom(|before|, sentence, picked, |picked|, sets, ok);
      assert DevRecords(sentences, pick, n) == before + SentenceRecords(|before|, sentence, picked);
    }
  }

  /** Every expanded record pairs its text with one of the sets, and some
      entry of that set occurs in the text. */
  lemma DevRecordsQualify(sentences: seq<Sentence>, sets: seq<BannedSet>)
    ensures forall rec :: rec in DevRecords(sentences, PickerFor(sets), |sentences|) ==>
              RecordFrom(rec, sets, QualifyingPair)
  {
    PickerForQualifies(sets);
    DevRecordsFrom(sentences, PickerFor(sets), sets, QualifyingPair, |sentences|);
  }

  /** A picker that never takes more than three sets yields at most three
      records per sentence. */
  lemma {:induction false} DevRecordsBoundBy(sentences: seq<Sentence>, pick: Picker, n: nat)
    requires n <= |sentences|
    requires forall text :: |pick(text)| <= MaxSetsPerSentence
    ensures |DevRecords(sentences, pick, n)| <= 3 * n
  {
    if n > 0 {
      DevRecordsBoundBy(sentences, pick, n - 1);
      assert |pick(sentences[n - 1].text)| <= MaxSetsPerSentence;
    }
  }

  /** No sentence yields more than three records. */
  lemma DevRecordsBound(sentences: seq<Sentence>, sets: seq<BannedSet>)
    ensures |DevRecords(sentences, PickerFor(sets), |sentences|)| <= 3 * |sentences|
  {
    forall text
      ensures |PickerFor(sets)(text)| <= MaxSetsPerSentence
    {
    }
    DevRecordsBoundBy(sentences, PickerFor(sets), |sentences|);
  }
}
