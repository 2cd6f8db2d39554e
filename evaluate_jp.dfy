/** The batch evaluation driver: the banned-list parser and the rules that
    turn each input row into one output record per rewriting method. The two
    rewriters and the clock are oracles; reading and writing files is left
    to the caller. */
module EvaluateJp {
  import opened Wrappers
  import opened Text
  import opened Utils
  import opened JaTokens
  import opened Metrics

  // ---------------------------------------------------------------------------
  // The banned list
  // ---------------------------------------------------------------------------

  /** `[c.strip() for c in s.split(",") if c.strip()]`. */
  function ParseBanned(s: string): seq<string>
  {
    StrippedNonEmpty(SplitOn(s, ','))
  }

  /** A banned entry as the parser produces it: non-empty, stripped and free
      of commas. */
  predicate IsEntry(x: string)
  {
    x != [] && IsStripped(x) && ',' !in x
  }

  /** Every parsed entry is non-empty, stripped and comma-free. */
  lemma ParseBannedEntries(s: string)
    ensures forall i :: 0 <= i < |ParseBanned(s)| ==> IsEntry(ParseBanned(s)[i])
  {
    StrippedNonEmptyShape(SplitOn(s, ','));
    StrippedNonEmptyAvoids(SplitOn(s, ','), ',');
  }

  /** Joining entries with commas and parsing gives them back, the empty list
      included. */
  lemma ParseBannedRoundTrip(xs: seq<string>)
    requires forall i :: 0 <= i < |xs| ==> IsEntry(xs[i])
    ensures ParseBanned(Join([','], xs)) == xs
  {
    if xs == [] {
      assert SplitOn([], ',') == [[]];
      assert Strip([]) == [];
    } else {
      SplitOnJoin(xs, ',');
      StrippedNonEmptyKeeps(xs);
    }
  }

  // ---------------------------------------------------------------------------
  // Rows and records
  // ---------------------------------------------------------------------------

  /** An input row: the (column, value) pairs it was read from. As in the
      dictionary built from them, the last pair for a column wins. */
  type Row = seq<(string, string)>

  /** A cell of an output record. */
  datatype Value = Int(i: int) | Str(s: string) | Flag(b: bool) | Ratio(r: real)

  /** An output record: column name to cell. */
  type Record = map<string, Value>

  /** `row.get(key)`. */
  function Get(row: Row, key: string): Option<string>
  {
    if row == [] then None
    else if row[|row| - 1].0 == key then Some(row[|row| - 1].1)
    else Get(row[..|row| - 1], key)
  }

  /** Python's `a or b` on optional strings: `a` unless it is missing or empty. */
  function Or(a: Option<string>, b: Option<string>): Option<string>
  {
    if a.Some? && a.value != [] then a else b
  }

  /** `... or ""`. */
  function OrEmpty(a: Option<string>): string
  {
    if a.Some? then a.value else []
  }

  /** The stripped text of a row, from "text", else "sentence". */
  function RowText(row: Row): string
  {
    Strip(OrEmpty(Or(Get(row, "text"), Get(row, "sentence"))))
  }

  /** The stripped banned column of a row, from "banned_chars", else "banned". */
  function RowBanned(row: Row): string
  {
    Strip(OrEmpty(Or(Get(row, "banned_chars"), Get(row, "banned"))))
  }

  /** A row's own banned column, when non-blank, overrides the default, even
      when it parses to nothing. */
  function BannedFor(row: Row, bannedDefault: seq<string>): seq<string>
  {
    var own := RowBanned(row);
    if own != [] then ParseBanned(own) else bannedDefault
  }

  /** The columns that are not copied into the records. */
  predicate IsReserved(key: string)
  {
    key == "text" || key == "sentence" || key == "banned" || key == "banned_chars"
  }

  /** The row's other columns, in order. */
  function Meta(row: Row): (r: Row)
    ensures forall i :: 0 <= i < |r| ==> !IsReserved(r[i].0)
  {
    if row == [] then []
    else
      var init, last := row[..|row| - 1], row[|row| - 1];
      if IsReserved(last.0) then Meta(init) else Meta(init) + [last]
  }

  /** The copied columns hold the row's values, the reserved ones nothing. */
  lemma {:induction false} GetMeta(row: Row, k: string)
    ensures Get(Meta(row), k) == if IsReserved(k) then None else Get(row, k)
  {
    if row != [] {
      var init, last := row[..|row| - 1], row[|row| - 1];
      GetMeta(init, k);
      if !IsReserved(last.0) {
        assert (Meta(init) + [last])[..|Meta(init)|] == Meta(init);
      }
    }
  }

  /** `rec.update(meta)`: the pairs of `meta` assigned in order. */
  function Update(rec: Record, meta: Row): Record
  {
    if meta == [] then rec
    else
      var last := meta[|meta| - 1];
      Update(rec, meta[..|meta| - 1])[last.0 := Str(last.1)]
  }

  /** After the update a column of `meta` holds its value from `meta`; every
      other column keeps its value, and no column is lost. */
  lemma {:induction false} UpdateLookup(rec: Record, meta: Row, k: string)
    ensures k in Update(rec, meta) <==> k in rec || Get(meta, k).Some?
    ensures Get(meta, k).Some? ==> Update(rec, meta)[k] == Str(Get(meta, k).value)
    ensures Get(meta, k).None? && k in rec ==> Update(rec, meta)[k] == rec[k]
  {
    if meta != [] {
      UpdateLookup(rec, meta[..|meta| - 1], k);
    }
  }

  // ---------------------------------------------------------------------------
  // One record per (row, method)
  // ---------------------------------------------------------------------------

  /** A rewriter: text and banned list to output text. */
  type Rewrite = (string, seq<string>) -> string

  /** The elapsed time of the rewrite of row `idx` by a method. */
  type Timer = (nat, string) -> real

  /** The sequential rewriter for "sequential", the one-shot one otherwise. */
  function Output(methodName: string, text: string, banned: seq<string>, sequential: Rewrite, oneShot: Rewrite): string
  {
    if methodName == "sequential" then sequential(text, banned) else oneShot(text, banned)
  }

  /** The metrics of one output. */
  datatype Scores = Scores(violated: bool, found: seq<string>, count: nat,
                           vrr: real, ttr: real, bigramRep: real, trigramRep: real)

  /** The metrics of `output` as a rewrite of `text`: the reading-mode banned
      check, the variation ratio, the type-token ratio and the bigram and
      trigram repetition rates. */
  function ScoresOf(text: string, output: string, banned: seq<string>, tokenize: Tokenizer): Scores
  {
    var reading := ExtractReading(output, tokenize);
    var surfaces := ContentSurfaces(output, tokenize);
    Scores(TotalCount(reading, banned) > 0, FoundKana(reading, banned), TotalCount(reading, banned),
           Vrr(ContentSurfaces(text, tokenize), surfaces), Ttr(surfaces),
           NgramRate(surfaces, 2), NgramRate(surfaces, 3))
  }

  /** The computed columns of a record. */
  function BaseRecord(idx: nat, methodName: string, text: string, banned: seq<string>, output: string,
                      scores: Scores, elapsed: real): Record
  {
    map["id" := Int(idx), "method" := Str(methodName), "text" := Str(text),
        "banned_chars" := Str(Join([','], banned)), "output" := Str(output),
        "constraint_violated" := Flag(scores.violated),
        "constraint_found" := Str(Join([','], scores.found)),
        "constraint_count" := Int(scores.count),
        "vrr" := Ratio(scores.vrr), "ttr" := Ratio(scores.ttr),
        "bigram_rep" := Ratio(scores.bigramRep), "trigram_rep" := Ratio(scores.trigramRep),
        "time_sec" := Ratio(elapsed)]
  }

  /** The record of row `idx` for one method: the computed columns, then the
      row's other columns over them. */
  function RecordOf(idx: nat, methodName: string, text: string, banned: seq<string>, meta: Row,
                    sequential: Rewrite, oneShot: Rewrite, timer: Timer, tokenize: Tokenizer): Record
  {
    var output := Output(methodName, text, banned, sequential, oneShot);
    Update(BaseRecord(idx, methodName, text, banned, output, ScoresOf(text, output, banned, tokenize),
                      timer(idx, methodName)), meta)
  }

  /** How the record of row `idx` for a method, text, banned list and copied
      columns is made. */
  type Builder = (nat, string, string, seq<string>, Row) -> Record

  /** The builder of the evaluation driver. */
  function RecordBuilder(sequential: Rewrite, oneShot: Rewrite, timer: Timer, tokenize: Tokenizer): Builder
  {
    (idx: nat, methodName: string, text: string, banned: seq<string>, meta: Row) =>
      RecordOf(idx, methodName, text, banned, meta, sequential, oneShot, timer, tokenize)
  }

  /** The records of one kept row, one per method in method order. */
  function MethodRecords(idx: nat, methods: seq<string>, text: string, banned: seq<string>, meta: Row,
                         build: Builder): (r: seq<Record>)
    ensures |r| == |methods|
  {
    if methods == [] then []
    else
      MethodRecords(idx, methods[..|methods| - 1], text, banned, meta, build)
      + [build(idx, methods[|methods| - 1], text, banned, meta)]
  }

  const NoBannedMessage := "No banned characters provided (row lacks 'banned_chars' and --banned not set)"

  /** The records of row `idx`: none for an empty text, an error when there
      is no banned list. */
  function RowRecords(idx: nat, row: Row, methods: seq<string>, bannedDefault: seq<string>,
                      build: Builder): Result<seq<Record>, string>
  {
    var text := RowText(row);
    if text == [] then Success([])
    else
      var banned := BannedFor(row, bannedDefault);
      if banned == [] then Failure(NoBannedMessage)
      else Success(MethodRecords(idx, methods, text, banned, Meta(row), build))
  }

  /** The records of all rows in order, or the error of the first row that
      has no banned list. */
  function Evaluated(rows: seq<Row>, methods: seq<string>, bannedDefault: seq<string>,
                     build: Builder): Result<seq<Record>, string>
  {
    if rows == [] then Success([])
    else
      match Evaluated(rows[..|rows| - 1], methods, bannedDefault, build)
      case Failure(e) => Failure(e)
      case Success(before) =>
        match RowRecords(|rows| - 1, rows[|rows| - 1], methods, bannedDefault, build)
        case Failure(e) => Failure(e)
        case Success(recs) => Success(before + recs)
  }

  /** `rows[:limit]` when the limit is positive, all rows otherwise. */
  function Limited(rows: seq<Row>, limit: int): (r: seq<Row>)
    ensures limit > 0 ==> |r| == if limit < |rows| then limit else |rows|
    ensures limit <= 0 ==> r == rows
    ensures r <= rows
  {
    if limit > 0 && limit < |rows| then rows[..limit] else rows
  }

  /** The default banned list: parsed from the option when it is given. */
  function DefaultBanned(bannedOption: Option<string>): seq<string>
  {
    if bannedOption.Some? && bannedOption.value != [] then ParseBanned(bannedOption.value) else []
  }

  /** Rewrites `text` with one method and measures the output. */
  method EvaluateOne(idx: nat, methodName: string, text: string, banned: seq<string>, meta: Row,
                     sequential: Rewrite, oneShot: Rewrite, timer: Timer, tokenize: Tokenizer)
    returns (rec: Record)
    ensures rec == RecordBuilder(sequential, oneShot, timer, tokenize)(idx, methodName, text, banned, meta)
  {
    var outText := if methodName == "sequential" then sequential(text, banned) else oneShot(text, banned);
    var elapsed := timer(idx, methodName);
    var cc := CheckConstraint(outText, banned, tokenize, "reading");
    var vrr := ComputeVrr(text, outText, tokenize);
    var ttr := ComputeTtr(outText, tokenize);
    var rep2 := NgramRepetitionRate(outText, 2, tokenize);
    var rep3 := NgramRepetitionRate(outText, 3, tokenize);
    var scores := Scores(cc.value.violated, cc.value.found, cc.value.count, vrr, ttr, rep2, rep3);
    rec := BaseRecord(idx, methodName, text, banned, outText, scores, elapsed);
    rec := Update(rec, meta);
  }

  /** Once a prefix of the rows fails, the whole evaluation fails with the
      same error. */
  lemma {:induction false} FailureSticks(rows: seq<Row>, n: nat, methods: seq<string>, bannedDefault: seq<string>, build: Builder)
    requires n <= |rows|
    requires Evaluated(rows[..n], methods, bannedDefault, build).Failure?
    ensures Evaluated(rows, methods, bannedDefault, build) == Evaluated(rows[..n], methods, bannedDefault, build)
    decreases |rows| - n
  {
    if n < |rows| {
      var init := rows[..|rows| - 1];
      assert init[..n] == rows[..n];
      FailureSticks(init, n, methods, bannedDefault, build);
    } else {
      assert rows[..n] == rows;
    }
  }

  /** Extending the methods by one adds that method's record. */
  lemma MethodRecordsNext(idx: nat, methods: seq<string>, j: nat, text: string, banned: seq<string>, meta: Row, build: Builder)
    requires j < |methods|
    ensures MethodRecords(idx, methods[..j + 1], text, banned, meta, build)
            == MethodRecords(idx, methods[..j], text, banned, meta, build) + [build(idx, methods[j], text, banned, meta)]
  {
    assert methods[..j + 1][..j] == methods[..j];
  }

  /** Extending the rows by one adds that row's records, or its error. */
  lemma EvaluatedNext(rows: seq<Row>, i: nat, methods: seq<string>, bannedDefault: seq<string>, build: Builder)
    requires i < |rows|
    requires Evaluated(rows[..i], methods, bannedDefault, build).Success?
    ensures var r := RowRecords(i, rows[i], methods, bannedDefault, build);
            r.Failure? ==> Evaluated(rows[..i + 1], methods, bannedDefault, build) == Failure(r.error)
    ensures var r := RowRecords(i, rows[i], methods, bannedDefault, build);
            r.Success? ==> Evaluated(rows[..i + 1], methods, bannedDefault, build)
                           == Success(Evaluated(rows[..i], methods, bannedDefault, build).value + r.value)
  {
    var prefix := rows[..i + 1];
    assert prefix[..|prefix| - 1] == rows[..i];
    assert prefix[|prefix| - 1] == rows[i];
  }

  /** The records of one row: skipped when its text is empty, an error when
      it has no banned list, else one record per method. */
  method EvaluateRow(idx: nat, row: Row, methods: seq<string>, bannedDefault: seq<string>,
                     sequential: Rewrite, oneShot: Rewrite, timer: Timer, tokenize: Tokenizer)
    returns (result: Result<seq<Record>, string>)
    ensures result == RowRecords(idx, row, methods, bannedDefault, RecordBuilder(sequential, oneShot, timer, tokenize))
  {
    var text := RowText(row);
    if text == [] {
      return Success([]);
    }
    var bannedStr := RowBanned(row);
    var banned := if bannedStr != [] then ParseBanned(bannedStr) else bannedDefault;
    if banned == [] {
      return Failure(NoBannedMessage);
    }
    var meta := Meta(row);
    ghost var build := RecordBuilder(sequential, oneShot, timer, tokenize);
    var recs: seq<Record> := [];
    for j := 0 to |methods|
      invariant recs == MethodRecords(idx, methods[..j], text, banned, meta, build)
    {
      MethodRecordsNext(idx, methods, j, text, banned, meta, build);
      var rec := EvaluateOne(idx, methods[j], text, banned, meta, sequential, oneShot, timer, tokenize);
      recs := recs + [rec];
    }
    assert methods[..|methods|] == methods;
    return Success(recs);
  }

  /** The main loop: for each row within the limit, its records in order; the
      first row without a banned list stops the run with an error. */
  method EvaluateRows(rows: seq<Row>, methods: seq<string>, bannedOption: Option<string>, limit: int,
                      sequential: Rewrite, oneShot: Rewrite, timer: Timer, tokenize: Tokenizer)
    returns (result: Result<seq<Record>, string>)
    ensures result == Evaluated(Limited(rows, limit), methods, DefaultBanned(bannedOption),
                                RecordBuilder(sequential, oneShot, timer, tokenize))
  {
    var bannedDefault := DefaultBanned(bannedOption);
    ghost var build := RecordBuilder(sequential, oneShot, timer, tokenize);
    var kept := if limit > 0 && limit < |rows| then rows[..limit] else rows;
    var outputs: seq<Record> := [];
    for idx := 0 to |kept|
      invariant Evaluated(kept[..idx], methods, bannedDefault, build) == Success(outputs)
    {
      EvaluatedNext(kept, idx, methods, bannedDefault, build);
      var recs := EvaluateRow(idx, kept[idx], methods, bannedDefault, sequential, oneShot, timer, tokenize);
      if recs.Failure? {
        FailureSticks(kept, idx + 1, methods, bannedDefault, build);
        return Failure(recs.error);
      }
      outputs := outputs + recs.value;
    }
    assert kept[..|kept|] == kept;
    return Success(outputs);
  }

  // ---------------------------------------------------------------------------
  // Properties of the records
  // ---------------------------------------------------------------------------

  /** The number of rows whose stripped text is non-empty. */
  function KeptRows(rows: seq<Row>): nat
  {
    if rows == [] then 0
    else KeptRows(rows[..|rows| - 1]) + (if RowText(rows[|rows| - 1]) != [] then 1 else 0)
  }

  /** One more row adds its records, or none when its text is empty. */
  lemma EvaluatedLast(rows: seq<Row>, methods: seq<string>, bannedDefault: seq<string>, build: Builder)
    requires rows != []
    requires Evaluated(rows, methods, bannedDefault, build).Success?
    ensures Evaluated(rows[..|rows| - 1], methods, bannedDefault, build).Success?
    ensures |Evaluated(rows, methods, bannedDefault, build).value|
            == |Evaluated(rows[..|rows| - 1], methods, bannedDefault, build).value|
               + (if RowText(rows[|rows| - 1]) != [] then |methods| else 0)
  {
  }

  lemma MulSucc(a: int, b: int, c: int)
    requires c == b + 1
    ensures a * c == a * b + a
  {
  }

  /** On success there is exactly one record per kept row and method. */
  lemma {:induction false} EvaluatedCount(rows: seq<Row>, methods: seq<string>, bannedDefault: seq<string>, build: Builder)
    requires Evaluated(rows, methods, bannedDefault, build).Success?
    ensures |Evaluated(rows, methods, bannedDefault, build).value| == |methods| * KeptRows(rows)
  {
    if rows != [] {
      var init := rows[..|rows| - 1];
      EvaluatedLast(rows, methods, bannedDefault, build);
      EvaluatedCount(init, methods, bannedDefault, build);
      var k := KeptRows(init);
      if RowText(rows[|rows| - 1]) != [] {
        assert KeptRows(rows) == k + 1;
        MulSucc(|methods|, k, KeptRows(rows));
      } else {
        assert KeptRows(rows) == k;
      }
    }
  }

  /** A row that needs a banned list and has none. */
  predicate LacksBanned(row: Row, bannedDefault: seq<string>)
  {
    RowText(row) != [] && BannedFor(row, bannedDefault) == []
  }

  /** One more row fails the evaluation exactly when it lacks a banned list. */
  lemma FailsLast(rows: seq<Row>, methods: seq<string>, bannedDefault: seq<string>, build: Builder)
    requires rows != []
    ensures Evaluated(rows, methods, bannedDefault, build).Failure?
            <==> Evaluated(rows[..|rows| - 1], methods, bannedDefault, build).Failure?
                 || LacksBanned(rows[|rows| - 1], bannedDefault)
  {
  }

  /** Some element satisfies `p` exactly when one of the first ones does or
      the last one does. */
  lemma SomeLast<T>(xs: seq<T>, init: seq<T>, p: T -> bool)
    requires xs != [] && init == xs[..|xs| - 1]
    ensures (exists k :: 0 <= k < |xs| && p(xs[k]))
            <==> (exists k :: 0 <= k < |init| && p(init[k])) || p(xs[|xs| - 1])
  {
    if exists k :: 0 <= k < |xs| && p(xs[k]) {
      var k :| 0 <= k < |xs| && p(xs[k]);
      if k < |init| {
        assert p(init[k]);
      }
    }
    if exists k :: 0 <= k < |init| && p(init[k]) {
      var k :| 0 <= k < |init| && p(init[k]);
      assert p(xs[k]);
    }
  }

  /** The evaluation fails exactly when some row with text has no banned list. */
  lemma {:induction false} EvaluatedFails(rows: seq<Row>, methods: seq<string>, bannedDefault: seq<string>, build: Builder)
    ensures Evaluated(rows, methods, bannedDefault, build).Failure?
            <==> exists k :: 0 <= k < |rows| && LacksBanned(rows[k], bannedDefault)
  {
    if rows != [] {
      FailsLast(rows, methods, bannedDefault, build);
      EvaluatedFails(rows[..|rows| - 1], methods, bannedDefault, build);
      SomeLast(rows, rows[..|rows| - 1], row => LacksBanned(row, bannedDefault));
    }
  }

  /** A banned column made only of a comma overrides a non-empty default and
      leaves the row without a banned list. */
  lemma CommaOnlyOverridesDefault(bannedDefault: seq<string>)
    ensures BannedFor([("text", "さる"), ("banned_chars", ",")], bannedDefault) == []
  {
    var row: Row := [("text", "さる"), ("banned_chars", ",")];
    assert Get(row, "banned_chars") == Some(",");
    assert Strip(",") == ",";
    assert SplitOn(",", ',') == [[], []];
    assert Strip([]) == [];
  }

  /** The text and banned-list columns of a record are always the computed
      ones, since the reserved columns are never copied over them. */
  lemma RecordTextAndBanned(idx: nat, methodName: string, text: string, banned: seq<string>, output: string,
                            scores: Scores, elapsed: real, row: Row)
    ensures var rec := Update(BaseRecord(idx, methodName, text, banned, output, scores, elapsed), Meta(row));
            "text" in rec && rec["text"] == Str(text)
            && "banned_chars" in rec && rec["banned_chars"] == Str(Join([','], banned))
  {
    var base := BaseRecord(idx, methodName, text, banned, output, scores, elapsed);
    ReservedColumnKept(base, row, "text");
    ReservedColumnKept(base, row, "banned_chars");
  }

  /** A reserved column keeps the value the record gave it. */
  lemma ReservedColumnKept(rec: Record, row: Row, k: string)
    requires k in rec && IsReserved(k)
    ensures k in Update(rec, Meta(row)) && Update(rec, Meta(row))[k] == rec[k]
  {
    UpdateLookup(rec, Meta(row), k);
    GetMeta(row, k);
  }

  /** Unless the row has a column of the same name, the record's violation
      flag and count are the measured ones. */
  lemma RecordViolation(idx: nat, methodName: string, text: string, banned: seq<string>, output: string,
                        scores: Scores, elapsed: real, row: Row)
    requires Get(row, "constraint_violated") == None && Get(row, "constraint_count") == None
    ensures var rec := Update(BaseRecord(idx, methodName, text, banned, output, scores, elapsed), Meta(row));
            "constraint_violated" in rec && rec["constraint_violated"] == Flag(scores.violated)
            && "constraint_count" in rec && rec["constraint_count"] == Int(scores.count)
  {
    var base := BaseRecord(idx, methodName, text, banned, output, scores, elapsed);
    UpdateLookup(base, Meta(row), "constraint_violated");
    UpdateLookup(base, Meta(row), "constraint_count");
    GetMeta(row, "constraint_violated");
    GetMeta(row, "constraint_count");
  }

  /** A row's own "id" column is merged last and replaces the computed id. */
  lemma MetaIdWins(idx: nat, methodName: string, text: string, banned: seq<string>, output: string,
                   scores: Scores, elapsed: real, row: Row, id: string)
    requires Get(row, "id") == Some(id)
    ensures var rec := Update(BaseRecord(idx, methodName, text, banned, output, scores, elapsed), Meta(row));
            "id" in rec && rec["id"] == Str(id)
  {
    UpdateLookup(BaseRecord(idx, methodName, text, banned, output, scores, elapsed), Meta(row), "id");
    GetMeta(row, "id");
  }

  /** The measured output is flagged exactly when its reading contains a
      banned entry, the found list is empty exactly when it is not flagged,
      and every ratio lies in [0, 1], the repetition rates below 1. */
  lemma ScoresMeaning(text: string, output: string, banned: seq<string>, tokenize: Tokenizer)
    ensures var sc := ScoresOf(text, output, banned, tokenize);
            (sc.violated <==> ContainsBanned(ExtractReading(output, tokenize), banned))
            && (sc.found == [] <==> !sc.violated)
            && 0.0 <= sc.vrr <= 1.0 && 0.0 <= sc.ttr <= 1.0
            && 0.0 <= sc.bigramRep < 1.0 && 0.0 <= sc.trigramRep < 1.0
  {
    var reading := ExtractReading(output, tokenize);
    var surfaces := ContentSurfaces(output, tokenize);
    ViolatedIffContainsBanned(reading, banned);
    FoundIffViolated(reading, banned);
    VrrBounds(ContentSurfaces(text, tokenize), surfaces);
    if surfaces != [] {
      TtrBounds(surfaces);
    }
    if 2 <= |surfaces| {
      NgramRateBounds(surfaces, 2);
    }
    if 3 <= |surfaces| {
      NgramRateBounds(surfaces, 3);
    }
  }
}
