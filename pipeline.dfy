// Properties that span the extractor and the shortener: a run_id built from
// a file name splits back into that file's model name and hash, and
// shortening a freshly built dataset keeps each model name and the first
// characters of its SHA-1 digest.
module Pipeline {
  import opened Records
  import opened RunIdUtility
  import opened Preprocessing

  /** What `hexdigest()` of SHA-1 returns: 40 lower-case hexadecimal digits. */
  predicate IsHexDigest(s: string) {
    |s| == 40 && forall i :: 0 <= i < |s| ==> s[i] in "0123456789abcdef"
  }

  /** A hex digest never holds an underscore. */
  lemma HexDigestHasNoUnderscore(s: string)
    requires IsHexDigest(s)
    ensures '_' !in s
  {
    forall i | 0 <= i < |s| ensures s[i] != '_' {
      assert s[i] in "0123456789abcdef";
    }
  }

  /** The run_id written by the extractor splits, at the shortener's last
      `_`, into exactly the file's model name and its digest, even when the
      model name holds underscores of its own. */
  lemma ExtractedRunIdSplitsBack(csvPath: string, rows: seq<Row>, toFloat: string -> Option<real>, sha1: string -> string)
    requires ExtractRecord(csvPath, rows, toFloat, sha1).Ok?
    requires IsHexDigest(sha1(Basename(csvPath)))
    ensures var record := ExtractRecord(csvPath, rows, toFloat, sha1).value;
      && "run_id" in record && record["run_id"].Text?
      && ModelNameOf(record["run_id"].text) == StripExtension(Basename(csvPath))
      && HashOf(record["run_id"].text) == sha1(Basename(csvPath))
  {
    ExtractRecordContents(csvPath, rows, toFloat, sha1);
    HexDigestHasNoUnderscore(sha1(Basename(csvPath)));
    SplitsBack(StripExtension(Basename(csvPath)), sha1(Basename(csvPath)));
  }

  /** The run_id of file `name` shortened to a valid length is the model
      name, `_`, and the first `hashLength` digits of the digest. */
  lemma ShortenRunIdFor(name: string, sha1: string -> string, hashLength: int)
    requires IsHexDigest(sha1(name))
    requires MinHashLength <= hashLength <= MaxHashLength
    ensures ShortenId(RunIdFor(name, sha1), hashLength) == StripExtension(name) + "_" + sha1(name)[..hashLength]
  {
    HexDigestHasNoUnderscore(sha1(name));
    SplitsBack(StripExtension(name), sha1(name));
  }

  /** Shortening a built dataset: it succeeds exactly when the length is
      valid and every file supplied both a `wer` and a `bleu` row; then
      record j's run_id is the j-th `.csv` file's model name followed by
      the first `hashLength` digits of its digest. */
  lemma ShortenBuiltDataset(
    directory: string, listing: seq<string>, read: string -> seq<Row>,
    toFloat: string -> Option<real>, sha1: string -> string,
    dataset: seq<Record>, hashLength: int)
    requires forall name :: name in listing ==> '/' !in name
    requires forall j :: 0 <= j < |CsvNames(listing)| ==> IsHexDigest(sha1(CsvNames(listing)[j]))
    requires BuildDataset(directory, listing, read, toFloat, sha1) == Ok(dataset)
    ensures ShortenAll(dataset, hashLength).Ok? <==>
      MinHashLength <= hashLength <= MaxHashLength &&
      forall j :: 0 <= j < |dataset| ==> "wer" in dataset[j] && "bleu" in dataset[j]
    ensures MinHashLength <= hashLength <= MaxHashLength && ShortenAll(dataset, hashLength).Ok? ==>
      var out := ShortenAll(dataset, hashLength).value;
      && |out| == |CsvNames(listing)|
      && forall j :: 0 <= j < |out| ==>
        "run_id" in out[j] && IsHexDigest(sha1(CsvNames(listing)[j])) &&
        out[j]["run_id"] == Text(StripExtension(CsvNames(listing)[j]) + "_" + sha1(CsvNames(listing)[j])[..hashLength])
  {
    BuildDatasetRunIds(directory, listing, read, toFloat, sha1, dataset);
    if MinHashLength <= hashLength <= MaxHashLength {
      ShortenEachSucceeds(dataset, hashLength);
      if ShortenAll(dataset, hashLength).Ok? {
        ShortenEachRecords(dataset, hashLength);
        var out := ShortenAll(dataset, hashLength).value;
        forall j | 0 <= j < |out|
          ensures "run_id" in out[j] &&
            out[j]["run_id"] == Text(StripExtension(CsvNames(listing)[j]) + "_" + sha1(CsvNames(listing)[j])[..hashLength])
        {
          ShortenedRecordAt(CsvNames(listing)[j], sha1, dataset[j], out[j], hashLength);
        }
      }
    }
  }

  /** One record of a built dataset, carrying the run_id of file `name`:
      shortened, it carries the model name and the first `hashLength`
      digits of the digest. */
  lemma ShortenedRecordAt(name: string, sha1: string -> string, record: Record, out: Record, hashLength: int)
    requires IsHexDigest(sha1(name))
    requires MinHashLength <= hashLength <= MaxHashLength
    requires "run_id" in record && record["run_id"] == Text(RunIdFor(name, sha1))
    requires ShortenRecord(record, hashLength) == Ok(out)
    ensures "run_id" in out && out["run_id"] == Text(StripExtension(name) + "_" + sha1(name)[..hashLength])
  {
    ShortenRunIdFor(name, sha1, hashLength);
  }

  /** Built run_ids are unique as long as the digests of the `.csv` names
      differ: the digest is recovered from each run_id. */
  lemma BuiltRunIdsDistinct(
    directory: string, listing: seq<string>, read: string -> seq<Row>,
    toFloat: string -> Option<real>, sha1: string -> string, dataset: seq<Record>)
    requires forall name :: name in listing ==> '/' !in name
    requires forall j :: 0 <= j < |CsvNames(listing)| ==> IsHexDigest(sha1(CsvNames(listing)[j]))
    requires var names := CsvNames(listing);
      forall i, j :: 0 <= i < j < |names| ==> sha1(names[i]) != sha1(names[j])
    requires BuildDataset(directory, listing, read, toFloat, sha1) == Ok(dataset)
    ensures forall j :: 0 <= j < |dataset| ==> "run_id" in dataset[j]
    ensures forall i, j :: 0 <= i < j < |dataset| ==> dataset[i]["run_id"] != dataset[j]["run_id"]
  {
    BuildDatasetRunIds(directory, listing, read, toFloat, sha1, dataset);
    CsvNamesMembers(listing);
    var names := CsvNames(listing);
    forall i, j | 0 <= i < j < |dataset| ensures dataset[i]["run_id"] != dataset[j]["run_id"] {
      HexDigestHasNoUnderscore(sha1(names[i]));
      HexDigestHasNoUnderscore(sha1(names[j]));
      SplitsBack(StripExtension(names[i]), sha1(names[i]));
      SplitsBack(StripExtension(names[j]), sha1(names[j]));
    }
  }
}
