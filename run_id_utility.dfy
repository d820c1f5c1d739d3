// The run-identifier shortener. A run_id has the form `<model name>_<hash>`;
// the shortener cuts a hash suffix (the text after the last `_`) that is
// longer than the requested length, which must lie between 6 and 8, down to
// that length, keeps a shorter one, and rebuilds each record from its
// run_id, wer and bleu only.
module RunIdUtility {
  import opened Text
  import opened Records

  const MinHashLength: int := 6
  const MaxHashLength: int := 8

  /** `"_".join(run_id.split("_")[:-1])`: everything before the last `_`,
      or "" when the run_id has no `_` at all, in which case the whole
      run_id is the hash. */
  function ModelNameOf(runId: string): (model: string)
    ensures '_' in runId ==> runId == model + "_" + HashOf(runId)
    ensures '_' !in runId ==> model == "" && HashOf(runId) == runId
  {
    SplitAtLast(runId);
    var parts := Split(runId, '_');
    Join(parts[..|parts| - 1], '_')
  }

  /** The pieces of a split run_id: with a `_`, all but the last piece joined
      back, `_`, and the last piece; without one, the run_id alone. */
  lemma SplitAtLast(runId: string)
    ensures var parts := Split(runId, '_');
      && ('_' in runId ==> runId == Join(parts[..|parts| - 1], '_') + "_" + parts[|parts| - 1])
      && ('_' !in runId ==> parts == [runId])
  {
    var parts := Split(runId, '_');
    if '_' in runId {
      SplitCount(runId, '_');
      JoinSplit(runId, '_');
      JoinLast(parts, '_');
      var model := Join(parts[..|parts| - 1], '_');
      assert runId == model + ['_'] + parts[|parts| - 1];
      assert ['_'] == "_";
    } else {
      SplitWithoutSep(runId, '_');
    }
  }

  /** `run_id.split("_")[-1]`: the text after the last `_`. */
  function HashOf(runId: string): (h: string)
    ensures '_' !in h
  {
    var parts := Split(runId, '_');
    parts[|parts| - 1]
  }

  /** A run_id built as `model + "_" + hash`, with no `_` in the hash, splits
      back into exactly that model name and hash, whatever underscores the
      model name holds. */
  lemma SplitsBack(model: string, hash: string)
    requires '_' !in hash
    ensures ModelNameOf(model + "_" + hash) == model
    ensures HashOf(model + "_" + hash) == hash
  {
    SplitAroundLast(model, hash, '_');
    var parts := Split(model + "_" + hash, '_');
    assert parts == Split(model, '_') + [hash];
    assert parts[..|parts| - 1] == Split(model, '_');
    JoinSplit(model, '_');
  }

  /** The new run_id of one record: the hash is cut to its first
      `hashLength` characters when it is longer, and the model name is kept. */
  function ShortenId(runId: string, hashLength: nat): (r: string)
    ensures ModelNameOf(r) == ModelNameOf(runId)
    ensures HashOf(r) == if |HashOf(runId)| > hashLength then HashOf(runId)[..hashLength] else HashOf(runId)
    ensures |HashOf(runId)| > hashLength ==> r == ModelNameOf(runId) + "_" + HashOf(runId)[..hashLength]
    ensures |HashOf(runId)| <= hashLength ==> r == runId
  {
    var modelName := ModelNameOf(runId);
    var originalHash := HashOf(runId);
    if |originalHash| > hashLength then
      var shortenedHash := originalHash[..hashLength];
      SplitsBack(modelName, shortenedHash);
      modelName + "_" + shortenedHash
    else
      runId
  }

  /** Shortening to n and then to m is shortening to the smaller of the two. */
  lemma ShortenIdTwice(runId: string, n: nat, m: nat)
    ensures ShortenId(ShortenId(runId, n), m) == ShortenId(runId, if m < n then m else n)
  {
    var hash := HashOf(runId);
    if |hash| > n && m < n {
      assert hash[..n][..m] == hash[..m];
    }
  }

  /** The keys `shorten_run_id_hash` reads from a record are there, and the
      run_id is a string. */
  predicate Shortenable(rec: Record) {
    "run_id" in rec && rec["run_id"].Text? && "wer" in rec && "bleu" in rec
  }

  /** The record written for one input record: `run_id` (shortened), `wer`
      and `bleu`, read in that order, each lookup raising when it fails. */
  function ShortenRecord(rec: Record, hashLength: nat): (r: Result<Record>)
    ensures r.Ok? <==> Shortenable(rec)
    ensures "run_id" !in rec ==> r == Err(MissingKey("run_id"))
    ensures "run_id" in rec && !rec["run_id"].Text? ==> r == Err(RunIdNotText)
    ensures "run_id" in rec && rec["run_id"].Text? && "wer" !in rec ==> r == Err(MissingKey("wer"))
    ensures "run_id" in rec && rec["run_id"].Text? && "wer" in rec && "bleu" !in rec ==> r == Err(MissingKey("bleu"))
    ensures r.Ok? ==> r.value.Keys == {"run_id", "wer", "bleu"}
    ensures r.Ok? ==> r.value["wer"] == rec["wer"] && r.value["bleu"] == rec["bleu"]
    ensures r.Ok? ==> r.value["run_id"] == Text(ShortenId(rec["run_id"].text, hashLength))
  {
    if "run_id" !in rec then Err(MissingKey("run_id"))
    else if !rec["run_id"].Text? then Err(RunIdNotText)
    else if "wer" !in rec then Err(MissingKey("wer"))
    else if "bleu" !in rec then Err(MissingKey("bleu"))
    else Ok(map["run_id" := Text(ShortenId(rec["run_id"].text, hashLength)),
                "wer" := rec["wer"],
                "bleu" := rec["bleu"]])
  }

  /** The loop over the records: one output record per input record, in
      order, stopping at the first record that raises. */
  function ShortenEach(records: seq<Record>, hashLength: nat): Result<seq<Record>> {
    if records == [] then Ok([])
    else
      match ShortenEach(records[..|records| - 1], hashLength)
      case Err(e) => Err(e)
      case Ok(done) =>
        match ShortenRecord(records[|records| - 1], hashLength)
        case Err(e) => Err(e)
        case Ok(rec) => Ok(done + [rec])
  }

  /** `shorten_run_id_hash`: the range guard first, then the loop. */
  function ShortenAll(records: seq<Record>, hashLength: int): (r: Result<seq<Record>>)
    ensures !(MinHashLength <= hashLength <= MaxHashLength) ==> r == Err(HashLengthOutOfRange)
    ensures r.Ok? <==> (MinHashLength <= hashLength <= MaxHashLength &&
      forall i :: 0 <= i < |records| ==> Shortenable(records[i]))
    ensures r.Ok? ==> |r.value| == |records|
  {
    if !(MinHashLength <= hashLength <= MaxHashLength) then Err(HashLengthOutOfRange)
    else
      ShortenEachSucceeds(records, hashLength);
      var done := ShortenEach(records, hashLength);
      if done.Ok? then
        ShortenEachLength(records, hashLength);
        done
      else
        done
  }

  /** One more record: the loop succeeds when it did on the earlier ones and
      the new one can be shortened. */
  lemma ShortenEachStep(records: seq<Record>, hashLength: nat)
    requires records != []
    ensures ShortenEach(records, hashLength).Ok? <==>
      ShortenEach(records[..|records| - 1], hashLength).Ok? && Shortenable(records[|records| - 1])
  {
  }

  lemma AllShortenableSnoc(init: seq<Record>, last: Record)
    ensures (forall i :: 0 <= i < |init + [last]| ==> Shortenable((init + [last])[i])) <==>
      (forall i :: 0 <= i < |init| ==> Shortenable(init[i])) && Shortenable(last)
  {
    if forall i :: 0 <= i < |init| ==> Shortenable(init[i]) {
      forall i | 0 <= i < |init + [last]| && i < |init|
        ensures Shortenable((init + [last])[i])
      {
        assert (init + [last])[i] == init[i];
      }
    }
    if forall i :: 0 <= i < |init + [last]| ==> Shortenable((init + [last])[i]) {
      assert (init + [last])[|init|] == last;
      forall i | 0 <= i < |init| ensures Shortenable(init[i]) {
        assert (init + [last])[i] == init[i];
      }
    }
  }

  /** The loop succeeds exactly when every record can be shortened. */
  lemma {:induction false} ShortenEachSucceeds(records: seq<Record>, hashLength: nat)
    ensures ShortenEach(records, hashLength).Ok? <==>
      forall i :: 0 <= i < |records| ==> Shortenable(records[i])
  {
    if records != [] {
      var init := records[..|records| - 1];
      var last := records[|records| - 1];
      ShortenEachSucceeds(init, hashLength);
      ShortenEachStep(records, hashLength);
      assert records == init + [last];
      AllShortenableSnoc(init, last);
    }
  }

  /** A successful loop is the earlier records' output followed by the last record's. */
  lemma ShortenEachSnoc(records: seq<Record>, hashLength: nat)
    requires records != [] && ShortenEach(records, hashLength).Ok?
    ensures ShortenEach(records[..|records| - 1], hashLength).Ok?
    ensures ShortenRecord(records[|records| - 1], hashLength).Ok?
    ensures ShortenEach(records, hashLength).value ==
      ShortenEach(records[..|records| - 1], hashLength).value + [ShortenRecord(records[|records| - 1], hashLength).value]
  {
  }

  /** On success the output has one record per input record. */
  lemma {:induction false} ShortenEachLength(records: seq<Record>, hashLength: nat)
    requires ShortenEach(records, hashLength).Ok?
    ensures |ShortenEach(records, hashLength).value| == |records|
  {
    if records != [] {
      ShortenEachSnoc(records, hashLength);
      ShortenEachLength(records[..|records| - 1], hashLength);
    }
  }

  /** On success record i of the output is the shortening of record i of the input. */
  lemma {:induction false} ShortenEachAt(records: seq<Record>, hashLength: nat, i: nat)
    requires ShortenEach(records, hashLength).Ok? && i < |records|
    ensures |ShortenEach(records, hashLength).value| == |records|
    ensures ShortenRecord(records[i], hashLength) == Ok(ShortenEach(records, hashLength).value[i])
  {
    ShortenEachSnoc(records, hashLength);
    ShortenEachLength(records, hashLength);
    var init := records[..|records| - 1];
    if i < |init| {
      ShortenEachAt(init, hashLength, i);
      assert init[i] == records[i];
    }
  }

  /** On success the output has the input's length and order. */
  lemma ShortenEachRecords(records: seq<Record>, hashLength: nat)
    requires ShortenEach(records, hashLength).Ok?
    ensures |ShortenEach(records, hashLength).value| == |records|
    ensures forall i :: 0 <= i < |records| ==>
      ShortenRecord(records[i], hashLength) == Ok(ShortenEach(records, hashLength).value[i])
  {
    ShortenEachLength(records, hashLength);
    forall i | 0 <= i < |records|
      ensures ShortenRecord(records[i], hashLength) == Ok(ShortenEach(records, hashLength).value[i])
    {
      ShortenEachAt(records, hashLength, i);
    }
  }

  /** On failure the error is that of the first record that cannot be shortened. */
  lemma {:induction false} ShortenEachFirstError(records: seq<Record>, hashLength: nat)
    requires ShortenEach(records, hashLength).Err?
    ensures exists i ::
      && 0 <= i < |records|
      && ShortenRecord(records[i], hashLength) == Err(ShortenEach(records, hashLength).error)
      && forall j :: 0 <= j < i ==> Shortenable(records[j])
  {
    var init := records[..|records| - 1];
    assert forall i :: 0 <= i < |init| ==> init[i] == records[i];
    if ShortenEach(init, hashLength).Err? {
      ShortenEachFirstError(init, hashLength);
    } else {
      ShortenEachSucceeds(init, hashLength);
      assert ShortenRecord(records[|init|], hashLength) == Err(ShortenEach(records, hashLength).error);
    }
  }

  /** Once a prefix has failed, the whole loop fails with the same error. */
  lemma {:induction false} ShortenEachFailsFrom(records: seq<Record>, i: nat, hashLength: nat)
    requires i <= |records|
    requires ShortenEach(records[..i], hashLength).Err?
    ensures ShortenEach(records, hashLength) == ShortenEach(records[..i], hashLength)
    decreases |records| - i
  {
    if i < |records| {
      assert records[..i + 1][..i] == records[..i];
      ShortenEachFailsFrom(records, i + 1, hashLength);
    } else {
      assert records[..i] == records;
    }
  }

  /** A hash length outside [6, 8] is refused before any record is looked
      at, whatever the records are, the empty list included. */
  lemma ShortenAllRejectsLength(records: seq<Record>, hashLength: int)
    requires hashLength < MinHashLength || hashLength > MaxHashLength
    ensures ShortenAll(records, hashLength) == Err(HashLengthOutOfRange)
  {
  }

  /** After a successful shortening every hash suffix is at most `hashLength`
      long, every model name is the input's, and a hash that was already
      short enough leaves its run_id as it was. */
  lemma ShortenAllSuffixes(records: seq<Record>, hashLength: int, out: seq<Record>)
    requires ShortenAll(records, hashLength) == Ok(out)
    ensures |out| == |records|
    ensures forall i :: 0 <= i < |out| ==>
      "run_id" in out[i] && out[i]["run_id"].Text? && "run_id" in records[i] && records[i]["run_id"].Text? &&
      |HashOf(out[i]["run_id"].text)| <= hashLength &&
      ModelNameOf(out[i]["run_id"].text) == ModelNameOf(records[i]["run_id"].text) &&
      (|HashOf(records[i]["run_id"].text)| <= hashLength ==> out[i]["run_id"] == records[i]["run_id"])
  {
    ShortenEachRecords(records, hashLength);
  }

  /** One record shortened to n and then to m is that record shortened to
      the smaller of the two. */
  lemma ShortenRecordTwice(rec: Record, n: nat, m: nat)
    requires Shortenable(rec)
    ensures ShortenRecord(rec, n).Ok? && ShortenRecord(ShortenRecord(rec, n).value, m) == ShortenRecord(rec, if m < n then m else n)
  {
    var once := ShortenRecord(rec, n).value;
    ShortenIdTwice(rec["run_id"].text, n, m);
    assert ShortenRecord(once, m).value == ShortenRecord(rec, if m < n then m else n).value;
  }

  /** Shortening an already shortened list to m gives what shortening the
      original to the smaller of the two lengths gives. */
  lemma {:induction false} ShortenTwice(records: seq<Record>, n: int, m: int, out: seq<Record>)
    requires ShortenAll(records, n) == Ok(out)
    requires MinHashLength <= m <= MaxHashLength
    ensures ShortenAll(out, m) == ShortenAll(records, if m < n then m else n)
  {
    var k := if m < n then m else n;
    ShortenEachRecords(records, n);
    ShortenEachSucceeds(records, n);
    ShortenEachSucceeds(records, k);
    forall i | 0 <= i < |out| ensures Shortenable(out[i]) {
      assert ShortenRecord(records[i], n) == Ok(out[i]);
    }
    ShortenEachSucceeds(out, m);
    ShortenEachRecords(records, k);
    ShortenEachRecords(out, m);
    var twice := ShortenAll(out, m).value;
    var once := ShortenAll(records, k).value;
    assert |twice| == |out| == |records| == |once|;
    forall i | 0 <= i < |twice| ensures twice[i] == once[i] {
      ShortenRecordTwice(records[i], n, m);
      assert Ok(twice[i]) == ShortenRecord(out[i], m);
      assert Ok(once[i]) == ShortenRecord(records[i], k);
    }
    assert twice == once;
  }

  /** Idempotence: shortening a shortened list again with the same or a
      larger length changes nothing. */
  lemma ShortenIdempotent(records: seq<Record>, n: int, m: int, out: seq<Record>)
    requires ShortenAll(records, n) == Ok(out)
    requires n <= m <= MaxHashLength
    ensures ShortenAll(out, m) == Ok(out)
  {
    ShortenTwice(records, n, m, out);
  }

  /** No uniqueness check: two distinct run_ids of one model whose hashes
      agree on their first `hashLength` characters collapse to the same new
      run_id, and both records are kept. */
  lemma ShortenKeepsCollisions(model: string, hash1: string, hash2: string, wer: Value, bleu: Value, hashLength: int)
    requires MinHashLength <= hashLength <= MaxHashLength
    requires '_' !in hash1 && '_' !in hash2 && hash1 != hash2
    requires |hash1| > hashLength && |hash2| > hashLength && hash1[..hashLength] == hash2[..hashLength]
    ensures var first := map["run_id" := Text(model + "_" + hash1), "wer" := wer, "bleu" := bleu];
            var second := map["run_id" := Text(model + "_" + hash2), "wer" := wer, "bleu" := bleu];
            var out := ShortenAll([first, second], hashLength);
            && first["run_id"] != second["run_id"]
            && out.Ok? && |out.value| == 2
            && "run_id" in out.value[0] && "run_id" in out.value[1]
            && out.value[0]["run_id"] == out.value[1]["run_id"] == Text(model + "_" + hash1[..hashLength])
  {
    SplitsBack(model, hash1);
    SplitsBack(model, hash2);
    var records := [map["run_id" := Text(model + "_" + hash1), "wer" := wer, "bleu" := bleu],
                    map["run_id" := Text(model + "_" + hash2), "wer" := wer, "bleu" := bleu]];
    assert Shortenable(records[0]) && Shortenable(records[1]);
    ShortenEachSucceeds(records, hashLength);
    ShortenEachRecords(records, hashLength);
  }

  /** `shorten_run_id_hash` as the code runs it: the guard, then a loop that
      appends one rebuilt record per input record. */
  method ShortenRunIdHash(records: seq<Record>, hashLength: int) returns (r: Result<seq<Record>>)
    ensures r == ShortenAll(records, hashLength)
  {
    if !(MinHashLength <= hashLength <= MaxHashLength) {
      return Err(HashLengthOutOfRange);
    }
    var shortenedRecords: seq<Record> := [];
    for i := 0 to |records|
      invariant ShortenEach(records[..i], hashLength) == Ok(shortenedRecords)
    {
      assert records[..i + 1][..i] == records[..i];
      var record := records[i];
      if "run_id" !in record {
        assert ShortenEach(records[..i + 1], hashLength) == Err(MissingKey("run_id"));
        ShortenEachFailsFrom(records, i + 1, hashLength);
        return Err(MissingKey("run_id"));
      }
      var runId := record["run_id"];
      if !runId.Text? {
        assert ShortenEach(records[..i + 1], hashLength) == Err(RunIdNotText);
        ShortenEachFailsFrom(records, i + 1, hashLength);
        return Err(RunIdNotText);
      }
      var parts := Split(runId.text, '_');
      var modelName := Join(parts[..|parts| - 1], '_');
      var originalHash := parts[|parts| - 1];
      var newRunId;
      if |originalHash| > hashLength {
        var shortenedHash := originalHash[..hashLength];
        newRunId := modelName + "_" + shortenedHash;
      } else {
        newRunId := runId.text;
      }
      assert modelName == ModelNameOf(runId.text) && originalHash == HashOf(runId.text);
      assert newRunId == ShortenId(runId.text, hashLength);
      if "wer" !in record {
        assert ShortenEach(records[..i + 1], hashLength) == Err(MissingKey("wer"));
        ShortenEachFailsFrom(records, i + 1, hashLength);
        return Err(MissingKey("wer"));
      }
      if "bleu" !in record {
        assert ShortenEach(records[..i + 1], hashLength) == Err(MissingKey("bleu"));
        ShortenEachFailsFrom(records, i + 1, hashLength);
        return Err(MissingKey("bleu"));
      }
      var shortened := map["run_id" := Text(newRunId), "wer" := record["wer"], "bleu" := record["bleu"]];
      assert ShortenRecord(record, hashLength) == Ok(shortened);
      assert ShortenEach(records[..i + 1], hashLength) == Ok(shortenedRecords + [shortened]);
      shortenedRecords := shortenedRecords + [shortened];
    }
    assert records[..|records|] == records;
    assert ShortenAll(records, hashLength) == ShortenEach(records, hashLength);
    return Ok(shortenedRecords);
  }
}
