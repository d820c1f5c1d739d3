// The record extractor and the dataset builder. A raw metric file is given
// as the rows its CSV reader yields (each a map from column name to cell);
// reading files, listing the directory, parsing floats and SHA-1 are
// parameters of the operations.
module Preprocessing {
  import opened Text
  import opened Records
  import opened RunIdUtility

  /** One row of `csv.DictReader`: column name to cell; a column the file
      lacks is a key the row lacks. */
  type Row = map<string, string>

  /** The row can be read: it has a `metric` and a `value` cell, and the
      value parses as a float. */
  predicate RowReadable(row: Row, toFloat: string -> Option<real>) {
    "metric" in row && "value" in row && toFloat(row["value"]).Some?
  }

  /** The metric a readable row sets, and the value it sets it to. */
  function MetricOf(row: Row): string
    requires "metric" in row
  {
    row["metric"]
  }

  function ValueOf(row: Row, toFloat: string -> Option<real>): real
    requires RowReadable(row, toFloat)
  {
    toFloat(row["value"]).value
  }

  /** Reading one row: `row["metric"]`, then `float(row["value"])`, each of
      which may raise. */
  function RowEntry(row: Row, toFloat: string -> Option<real>): (r: Result<(string, real)>)
    ensures r.Ok? <==> RowReadable(row, toFloat)
    ensures r.Ok? ==> r.value == (MetricOf(row), ValueOf(row, toFloat))
  {
    if "metric" !in row then Err(MissingKey("metric"))
    else if "value" !in row then Err(MissingKey("value"))
    else match toFloat(row["value"])
      case None => Err(NotAFloat(row["value"]))
      case Some(v) => Ok((row["metric"], v))
  }

  /** The loop over the rows: each row writes its metric into the record,
      stopping at the first row that raises. */
  function CollectMetrics(rows: seq<Row>, toFloat: string -> Option<real>): (r: Result<Record>)
    ensures r.Ok? ==> forall k :: k in r.value ==> r.value[k].Number?
  {
    if rows == [] then Ok(map[])
    else
      match CollectMetrics(rows[..|rows| - 1], toFloat)
      case Err(e) => Err(e)
      case Ok(record) =>
        match RowEntry(rows[|rows| - 1], toFloat)
        case Err(e) => Err(e)
        case Ok((metric, value)) => Ok(record[metric := Number(value)])
  }

  /** The rows are folded without error exactly when every row is readable. */
  lemma {:induction false} CollectMetricsSucceeds(rows: seq<Row>, toFloat: string -> Option<real>)
    ensures CollectMetrics(rows, toFloat).Ok? <==> forall i :: 0 <= i < |rows| ==> RowReadable(rows[i], toFloat)
  {
    if rows != [] {
      var init := rows[..|rows| - 1];
      CollectMetricsSucceeds(init, toFloat);
      assert forall i :: 0 <= i < |init| ==> init[i] == rows[i];
    }
  }

  /** A failed fold reports the error of the first unreadable row. */
  lemma {:induction false} CollectMetricsFirstError(rows: seq<Row>, toFloat: string -> Option<real>)
    requires CollectMetrics(rows, toFloat).Err?
    ensures exists i ::
      && 0 <= i < |rows|
      && RowEntry(rows[i], toFloat) == Err(CollectMetrics(rows, toFloat).error)
      && forall j :: 0 <= j < i ==> RowReadable(rows[j], toFloat)
  {
    var init := rows[..|rows| - 1];
    assert forall i :: 0 <= i < |init| ==> init[i] == rows[i];
    if CollectMetrics(init, toFloat).Err? {
      CollectMetricsFirstError(init, toFloat);
    } else {
      CollectMetricsSucceeds(init, toFloat);
    }
  }

  /** When every row is readable, the record's keys are exactly the metric
      names of the rows, each mapped to a number. */
  lemma {:induction false} CollectMetricsKeys(rows: seq<Row>, toFloat: string -> Option<real>)
    requires forall i :: 0 <= i < |rows| ==> RowReadable(rows[i], toFloat)
    ensures CollectMetrics(rows, toFloat).Ok?
    ensures var record := CollectMetrics(rows, toFloat).value;
      forall k :: k in record <==> exists i :: 0 <= i < |rows| && RowReadable(rows[i], toFloat) && MetricOf(rows[i]) == k
  {
    CollectMetricsSucceeds(rows, toFloat);
    if rows != [] {
      var n := |rows| - 1;
      var init := rows[..n];
      assert forall i :: 0 <= i < n ==> init[i] == rows[i];
      CollectMetricsKeys(init, toFloat);
      var before := CollectMetrics(init, toFloat).value;
      var record := CollectMetrics(rows, toFloat).value;
      assert record == before[MetricOf(rows[n]) := Number(ValueOf(rows[n], toFloat))];
      forall k ensures k in record <==> exists i :: 0 <= i < |rows| && RowReadable(rows[i], toFloat) && MetricOf(rows[i]) == k {
        if k in before {
          var i :| 0 <= i < n && RowReadable(init[i], toFloat) && MetricOf(init[i]) == k;
          assert RowReadable(rows[i], toFloat) && MetricOf(rows[i]) == k;
        }
        if exists i :: 0 <= i < |rows| && RowReadable(rows[i], toFloat) && MetricOf(rows[i]) == k {
          var i :| 0 <= i < |rows| && RowReadable(rows[i], toFloat) && MetricOf(rows[i]) == k;
          if i < n {
            assert RowReadable(init[i], toFloat) && MetricOf(init[i]) == k;
          }
        }
      }
    }
  }

  /** Last write wins: a metric's value is the one on the last row that names it. */
  lemma {:induction false} CollectMetricsLastWins(rows: seq<Row>, toFloat: string -> Option<real>, i: nat)
    requires forall j :: 0 <= j < |rows| ==> RowReadable(rows[j], toFloat)
    requires i < |rows| && RowReadable(rows[i], toFloat)
    requires forall j :: i < j < |rows| ==> RowReadable(rows[j], toFloat) && MetricOf(rows[j]) != MetricOf(rows[i])
    ensures CollectMetrics(rows, toFloat).Ok?
    ensures var record := CollectMetrics(rows, toFloat).value;
      MetricOf(rows[i]) in record && record[MetricOf(rows[i])] == Number(ValueOf(rows[i], toFloat))
  {
    CollectMetricsSucceeds(rows, toFloat);
    var n := |rows| - 1;
    var init := rows[..n];
    assert forall j :: 0 <= j < n ==> init[j] == rows[j];
    CollectMetricsSucceeds(init, toFloat);
    var before := CollectMetrics(init, toFloat).value;
    assert CollectMetrics(rows, toFloat).value == before[MetricOf(rows[n]) := Number(ValueOf(rows[n], toFloat))];
    if i < n {
      CollectMetricsLastWins(init, toFloat, i);
    }
  }

  /** `os.path.basename`: the text after the last `/`. */
  function Basename(path: string): (name: string)
    ensures '/' !in name
    ensures |name| <= |path| && path[|path| - |name|..] == name
    ensures |name| < |path| ==> path[|path| - |name| - 1] == '/'
  {
    path[RFind(path, '/') + 1..]
  }

  /** `os.path.join(directory, name)` for one name. */
  function PathJoin(directory: string, name: string): (path: string)
    ensures EndsWith(path, name)
    ensures !StartsWith(name, "/") ==> StartsWith(path, directory)
  {
    if StartsWith(name, "/") then name
    else if directory == "" || EndsWith(directory, "/") then
      StartsWithConcat(directory, name);
      directory + name
    else
      StartsWithConcat(directory, "/" + name);
      assert directory + "/" + name == directory + ("/" + name);
      directory + "/" + name
  }

  /** A `/` followed by a `/`-free tail: the tail is the basename. */
  lemma BasenameAfterSlash(path: string, sep: nat)
    requires sep < |path| && path[sep] == '/' && '/' !in path[sep + 1..]
    ensures Basename(path) == path[sep + 1..]
  {
    forall k | sep < k < |path| ensures path[k] != '/' {
      assert path[k] == path[sep + 1..][k - sep - 1];
    }
    RFindLast(path, '/', sep);
  }

  /** The basename of a directory entry's path is the entry's name, in any directory. */
  lemma BasenameOfJoin(directory: string, name: string)
    requires '/' !in name
    ensures Basename(PathJoin(directory, name)) == name
  {
    if |name| > 0 {
      assert name[0] != '/';
    }
    if directory == "" {
      assert PathJoin(directory, name) == name;
      assert RFind(name, '/') == -1;
    } else if EndsWith(directory, "/") {
      var path := directory + name;
      assert PathJoin(directory, name) == path;
      assert path[|directory| - 1] == '/' && path[|directory|..] == name;
      BasenameAfterSlash(path, |directory| - 1);
    } else {
      var path := directory + "/" + name;
      assert PathJoin(directory, name) == path;
      assert path[|directory|] == '/' && path[|directory| + 1..] == name;
      BasenameAfterSlash(path, |directory|);
    }
  }

  /** Some character at an index in [from, to) of `s` is not a dot. */
  predicate HasNonDot(s: string, from: int, to: int)
    requires 0 <= from && to <= |s|
  {
    exists k | from <= k < to :: s[k] != '.'
  }

  /** `os.path.splitext(filename)[0]`: the name without its final extension.
      The extension starts at the last dot after the last `/`, unless only
      dots come before that dot (a leading-dot name has no extension). */
  function StripExtension(filename: string): (root: string)
    ensures |root| <= |filename| && filename[..|root|] == root
    ensures root != filename ==> filename[|root|] == '.' && '/' !in filename[|root|..]
    ensures root != filename ==>
      '.' !in filename[|root| + 1..] && HasNonDot(filename, RFind(filename, '/') + 1, |root|)
    ensures root == filename ==>
      forall d | RFind(filename, '/') < d < |filename| && filename[d] == '.' ::
        !HasNonDot(filename, RFind(filename, '/') + 1, d)
  {
    var sepIndex := RFind(filename, '/');
    var dotIndex := RFind(filename, '.');
    if dotIndex > sepIndex && HasNonDot(filename, sepIndex + 1, dotIndex) then
      filename[..dotIndex]
    else
      forall d | sepIndex < d < |filename| && filename[d] == '.'
        ensures !HasNonDot(filename, sepIndex + 1, d)
      {
        assert d <= dotIndex;
      }
      filename
  }

  /** For a name `stem + ".csv"` only the final `.csv` goes, dots inside the
      stem stay; a stem made only of dots keeps the whole name. */
  lemma StripCsvExtension(stem: string)
    requires '/' !in stem
    ensures HasNonDot(stem, 0, |stem|) ==> StripExtension(stem + ".csv") == stem
    ensures !HasNonDot(stem, 0, |stem|) ==> StripExtension(stem + ".csv") == stem + ".csv"
  {
    var filename := stem + ".csv";
    assert filename[|stem|] == '.';
    assert forall k :: |stem| < k < |filename| ==> filename[k] != '.';
    assert RFind(filename, '.') == |stem|;
    assert forall k :: 0 <= k < |filename| ==> filename[k] != '/';
    assert RFind(filename, '/') == -1;
    assert filename[..|stem|] == stem;
    if HasNonDot(stem, 0, |stem|) {
      var k :| 0 <= k < |stem| && stem[k] != '.';
      assert filename[k] != '.';
    } else {
      forall k | 0 <= k < |stem| ensures filename[k] == '.' {
        assert stem[k] == '.';
      }
    }
  }

  /** `f"{model_name}_{hashid}"` for a file name, with `sha1` standing for
      `hashlib.sha1(filename.encode()).hexdigest()`. */
  function RunIdFor(filename: string, sha1: string -> string): (runId: string)
    ensures '_' !in sha1(filename) ==>
      ModelNameOf(runId) == StripExtension(filename) && HashOf(runId) == sha1(filename)
  {
    var runId := StripExtension(filename) + "_" + sha1(filename);
    if '_' !in sha1(filename) then
      SplitsBack(StripExtension(filename), sha1(filename));
      runId
    else
      runId
  }

  /** `parse_csv_to_record`: fold the rows, then write the `run_id`
      computed from the path's basename over whatever the rows put there. */
  function ExtractRecord(csvPath: string, rows: seq<Row>, toFloat: string -> Option<real>, sha1: string -> string): (r: Result<Record>)
    ensures r.Ok? <==> CollectMetrics(rows, toFloat).Ok?
    ensures r.Ok? ==> "run_id" in r.value && r.value["run_id"] == Text(RunIdFor(Basename(csvPath), sha1))
  {
    match CollectMetrics(rows, toFloat)
    case Err(e) => Err(e)
    case Ok(record) => Ok(record["run_id" := Text(RunIdFor(Basename(csvPath), sha1))])
  }

  /** An extracted record: it exists exactly when every row is readable; its
      `run_id` is the computed identifier even when a row is named `run_id`;
      every other key is a metric of the rows with its last value. */
  lemma ExtractRecordContents(csvPath: string, rows: seq<Row>, toFloat: string -> Option<real>, sha1: string -> string)
    ensures ExtractRecord(csvPath, rows, toFloat, sha1).Ok? <==> forall i :: 0 <= i < |rows| ==> RowReadable(rows[i], toFloat)
    ensures ExtractRecord(csvPath, rows, toFloat, sha1).Ok? ==>
      var record := ExtractRecord(csvPath, rows, toFloat, sha1).value;
      var metrics := CollectMetrics(rows, toFloat).value;
      && record["run_id"] == Text(RunIdFor(Basename(csvPath), sha1))
      && (forall k :: k != "run_id" ==> (k in record <==> k in metrics))
      && (forall k :: k != "run_id" && k in record ==> record[k] == metrics[k])
  {
    CollectMetricsSucceeds(rows, toFloat);
  }

  /** The run_id depends on the file's basename only: not on its directory,
      not on its rows. */
  lemma RunIdIgnoresDirectoryAndContents(
    directory1: string, directory2: string, name: string,
    rows1: seq<Row>, rows2: seq<Row>, toFloat: string -> Option<real>, sha1: string -> string)
    requires '/' !in name
    requires ExtractRecord(PathJoin(directory1, name), rows1, toFloat, sha1).Ok?
    requires ExtractRecord(PathJoin(directory2, name), rows2, toFloat, sha1).Ok?
    ensures ExtractRecord(PathJoin(directory1, name), rows1, toFloat, sha1).value["run_id"]
         == ExtractRecord(PathJoin(directory2, name), rows2, toFloat, sha1).value["run_id"]
         == Text(RunIdFor(name, sha1))
  {
    BasenameOfJoin(directory1, name);
    BasenameOfJoin(directory2, name);
  }

  /** `parse_csv_to_record` as the code runs it: a loop writing each row's
      metric into the record, then the run_id. */
  method ParseCsvToRecord(csvPath: string, rows: seq<Row>, toFloat: string -> Option<real>, sha1: string -> string)
    returns (r: Result<Record>)
    ensures r == ExtractRecord(csvPath, rows, toFloat, sha1)
  {
    var record: Record := map[];
    for i := 0 to |rows|
      invariant CollectMetrics(rows[..i], toFloat) == Ok(record)
    {
      assert rows[..i + 1][..i] == rows[..i];
      var row := rows[i];
      if "metric" !in row {
        CollectMetricsFailsFrom(rows, i + 1, toFloat);
        return Err(MissingKey("metric"));
      }
      var metric := row["metric"];
      if "value" !in row {
        CollectMetricsFailsFrom(rows, i + 1, toFloat);
        return Err(MissingKey("value"));
      }
      var parsed := toFloat(row["value"]);
      if parsed.None? {
        CollectMetricsFailsFrom(rows, i + 1, toFloat);
        return Err(NotAFloat(row["value"]));
      }
      record := record[metric := Number(parsed.value)];
    }
    assert rows[..|rows|] == rows;
    var filename := Basename(csvPath);
    var modelName := StripExtension(filename);
    var hashId := sha1(filename);
    record := record["run_id" := Text(modelName + "_" + hashId)];
    return Ok(record);
  }

  /** Once a prefix of the rows has failed, the whole fold fails with the same error. */
  lemma {:induction false} CollectMetricsFailsFrom(rows: seq<Row>, i: nat, toFloat: string -> Option<real>)
    requires i <= |rows|
    requires CollectMetrics(rows[..i], toFloat).Err?
    ensures CollectMetrics(rows, toFloat) == CollectMetrics(rows[..i], toFloat)
    decreases |rows| - i
  {
    if i < |rows| {
      assert rows[..i + 1][..i] == rows[..i];
      CollectMetricsFailsFrom(rows, i + 1, toFloat);
    } else {
      assert rows[..i] == rows;
    }
  }

  /** The directory entries that become records: those ending in `.csv`, in listing order. */
  function CsvNames(listing: seq<string>): (names: seq<string>)
    ensures |names| <= |listing|
    ensures forall k :: 0 <= k < |names| ==> EndsWith(names[k], ".csv")
  {
    if listing == [] then []
    else
      var last := listing[|listing| - 1];
      CsvNames(listing[..|listing| - 1]) + (if EndsWith(last, ".csv") then [last] else [])
  }

  /** The filter keeps exactly the `.csv` entries. */
  lemma {:induction false} CsvNamesMembers(listing: seq<string>)
    ensures forall name :: name in CsvNames(listing) <==> name in listing && EndsWith(name, ".csv")
  {
    if listing != [] {
      var init := listing[..|listing| - 1];
      CsvNamesMembers(init);
      assert listing == init + [listing[|listing| - 1]];
    }
  }

  /** `process_all_csvs` without the JSON write: every `.csv` entry of the
      listing, in order, becomes one record; the first failure ends the build. */
  function BuildDataset(
    directory: string, listing: seq<string>, read: string -> seq<Row>,
    toFloat: string -> Option<real>, sha1: string -> string): (r: Result<seq<Record>>)
    ensures r.Ok? ==> |r.value| <= |listing|
  {
    if listing == [] then Ok([])
    else
      match BuildDataset(directory, listing[..|listing| - 1], read, toFloat, sha1)
      case Err(e) => Err(e)
      case Ok(done) =>
        var filename := listing[|listing| - 1];
        if !EndsWith(filename, ".csv") then Ok(done)
        else
          var csvPath := PathJoin(directory, filename);
          match ExtractRecord(csvPath, read(csvPath), toFloat, sha1)
          case Err(e) => Err(e)
          case Ok(record) => Ok(done + [record])
  }

  /** The record that entry `name` of the directory yields. */
  function RecordFor(
    directory: string, name: string, read: string -> seq<Row>,
    toFloat: string -> Option<real>, sha1: string -> string): Result<Record>
  {
    ExtractRecord(PathJoin(directory, name), read(PathJoin(directory, name)), toFloat, sha1)
  }

  /** One more directory entry: a non-`.csv` entry changes nothing; a `.csv`
      entry appends its record, or ends the build with its error. */
  lemma BuildDatasetStep(
    directory: string, listing: seq<string>, read: string -> seq<Row>,
    toFloat: string -> Option<real>, sha1: string -> string)
    requires listing != []
    ensures var init := listing[..|listing| - 1];
      var last := listing[|listing| - 1];
      && CsvNames(listing) == CsvNames(init) + (if EndsWith(last, ".csv") then [last] else [])
      && (!EndsWith(last, ".csv") ==>
            BuildDataset(directory, listing, read, toFloat, sha1) == BuildDataset(directory, init, read, toFloat, sha1))
      && (EndsWith(last, ".csv") ==>
            (BuildDataset(directory, listing, read, toFloat, sha1).Ok? <==>
               BuildDataset(directory, init, read, toFloat, sha1).Ok? && RecordFor(directory, last, read, toFloat, sha1).Ok?))
      && (EndsWith(last, ".csv") && BuildDataset(directory, listing, read, toFloat, sha1).Ok? ==>
            BuildDataset(directory, listing, read, toFloat, sha1).value ==
              BuildDataset(directory, init, read, toFloat, sha1).value + [RecordFor(directory, last, read, toFloat, sha1).value])
  {
  }

  /** Every name of `names` yields a record. */
  predicate AllExtract(
    directory: string, names: seq<string>, read: string -> seq<Row>,
    toFloat: string -> Option<real>, sha1: string -> string)
  {
    forall j :: 0 <= j < |names| ==> RecordFor(directory, names[j], read, toFloat, sha1).Ok?
  }

  lemma AllExtractSnoc(
    directory: string, names: seq<string>, last: string, read: string -> seq<Row>,
    toFloat: string -> Option<real>, sha1: string -> string)
    ensures AllExtract(directory, names + [last], read, toFloat, sha1) <==>
      AllExtract(directory, names, read, toFloat, sha1) && RecordFor(directory, last, read, toFloat, sha1).Ok?
  {
    var all := names + [last];
    if AllExtract(directory, all, read, toFloat, sha1) {
      assert all[|names|] == last;
      forall j | 0 <= j < |names| ensures RecordFor(directory, names[j], read, toFloat, sha1).Ok? {
        assert all[j] == names[j];
      }
    }
    if AllExtract(directory, names, read, toFloat, sha1) && RecordFor(directory, last, read, toFloat, sha1).Ok? {
      forall j | 0 <= j < |all| ensures RecordFor(directory, all[j], read, toFloat, sha1).Ok? {
        if j < |names| {
          assert all[j] == names[j];
        }
      }
    }
  }

  /** The build succeeds exactly when every `.csv` entry can be extracted. */
  lemma {:induction false} BuildDatasetSucceeds(
    directory: string, listing: seq<string>, read: string -> seq<Row>,
    toFloat: string -> Option<real>, sha1: string -> string)
    ensures BuildDataset(directory, listing, read, toFloat, sha1).Ok? <==>
      AllExtract(directory, CsvNames(listing), read, toFloat, sha1)
  {
    if listing != [] {
      var init := listing[..|listing| - 1];
      var last := listing[|listing| - 1];
      BuildDatasetSucceeds(directory, init, read, toFloat, sha1);
      BuildDatasetStep(directory, listing, read, toFloat, sha1);
      if EndsWith(last, ".csv") {
        AllExtractSnoc(directory, CsvNames(init), last, read, toFloat, sha1);
      } else {
        assert CsvNames(init) + [] == CsvNames(init);
      }
    }
  }

  /** A successful build holds one record per `.csv` entry, and record j is
      the j-th `.csv` entry's record. */
  lemma {:induction false} BuildDatasetAt(
    directory: string, listing: seq<string>, read: string -> seq<Row>,
    toFloat: string -> Option<real>, sha1: string -> string, j: nat)
    requires BuildDataset(directory, listing, read, toFloat, sha1).Ok?
    ensures |BuildDataset(directory, listing, read, toFloat, sha1).value| == |CsvNames(listing)|
    ensures j < |CsvNames(listing)| ==>
      RecordFor(directory, CsvNames(listing)[j], read, toFloat, sha1) == Ok(BuildDataset(directory, listing, read, toFloat, sha1).value[j])
  {
    if listing != [] {
      var init := listing[..|listing| - 1];
      var last := listing[|listing| - 1];
      BuildDatasetStep(directory, listing, read, toFloat, sha1);
      BuildDatasetAt(directory, init, read, toFloat, sha1, j);
      var names := CsvNames(init);
      if EndsWith(last, ".csv") {
        if j < |names| {
          assert CsvNames(listing)[j] == names[j];
        } else if j == |names| {
          assert CsvNames(listing)[j] == last;
        }
      } else {
        assert CsvNames(listing) == names + [];
      }
    }
  }

  /** The build succeeds exactly when every `.csv` entry can be extracted;
      then it holds one record per `.csv` entry, in listing order. */
  lemma BuildDatasetRecords(
    directory: string, listing: seq<string>, read: string -> seq<Row>,
    toFloat: string -> Option<real>, sha1: string -> string)
    ensures var names := CsvNames(listing);
      BuildDataset(directory, listing, read, toFloat, sha1).Ok? <==>
      forall j :: 0 <= j < |names| ==> RecordFor(directory, names[j], read, toFloat, sha1).Ok?
    ensures var names := CsvNames(listing);
      var built := BuildDataset(directory, listing, read, toFloat, sha1);
      built.Ok? ==>
        && |built.value| == |names|
        && forall j :: 0 <= j < |names| ==> RecordFor(directory, names[j], read, toFloat, sha1) == Ok(built.value[j])
  {
    BuildDatasetSucceeds(directory, listing, read, toFloat, sha1);
    if BuildDataset(directory, listing, read, toFloat, sha1).Ok? {
      BuildDatasetAt(directory, listing, read, toFloat, sha1, 0);
      forall j | 0 <= j < |CsvNames(listing)|
        ensures RecordFor(directory, CsvNames(listing)[j], read, toFloat, sha1) == Ok(BuildDataset(directory, listing, read, toFloat, sha1).value[j])
      {
        BuildDatasetAt(directory, listing, read, toFloat, sha1, j);
      }
    }
  }

  /** Every built record carries the run_id of its own file name. */
  lemma BuildDatasetRunIds(
    directory: string, listing: seq<string>, read: string -> seq<Row>,
    toFloat: string -> Option<real>, sha1: string -> string, dataset: seq<Record>)
    requires forall name :: name in listing ==> '/' !in name
    requires BuildDataset(directory, listing, read, toFloat, sha1) == Ok(dataset)
    ensures |dataset| == |CsvNames(listing)|
    ensures forall j :: 0 <= j < |dataset| ==>
      "run_id" in dataset[j] && dataset[j]["run_id"] == Text(RunIdFor(CsvNames(listing)[j], sha1))
  {
    BuildDatasetRecords(directory, listing, read, toFloat, sha1);
    CsvNamesMembers(listing);
    var names := CsvNames(listing);
    forall j | 0 <= j < |dataset|
      ensures "run_id" in dataset[j] && dataset[j]["run_id"] == Text(RunIdFor(names[j], sha1))
    {
      assert names[j] in listing;
      BasenameOfJoin(directory, names[j]);
      ExtractRecordContents(PathJoin(directory, names[j]), read(PathJoin(directory, names[j])), toFloat, sha1);
    }
  }

  /** `process_all_csvs` as the code runs it: a loop over the listing that
      appends the record of each `.csv` entry. */
  method ProcessAllCsvs(
    dataRawPath: string, listing: seq<string>, read: string -> seq<Row>,
    toFloat: string -> Option<real>, sha1: string -> string)
    returns (r: Result<seq<Record>>)
    ensures r == BuildDataset(dataRawPath, listing, read, toFloat, sha1)
  {
    var allRecords: seq<Record> := [];
    for i := 0 to |listing|
      invariant BuildDataset(dataRawPath, listing[..i], read, toFloat, sha1) == Ok(allRecords)
    {
      assert listing[..i + 1][..i] == listing[..i];
      var filename := listing[i];
      if EndsWith(filename, ".csv") {
        var csvPath := PathJoin(dataRawPath, filename);
        var record := ParseCsvToRecord(csvPath, read(csvPath), toFloat, sha1);
        if record.Err? {
          BuildDatasetFailsFrom(dataRawPath, listing, i + 1, read, toFloat, sha1);
          return Err(record.error);
        }
        allRecords := allRecords + [record.value];
      }
    }
    assert listing[..|listing|] == listing;
    return Ok(allRecords);
  }

  /** Once a prefix of the listing has failed, the whole build fails with the same error. */
  lemma {:induction false} BuildDatasetFailsFrom(
    directory: string, listing: seq<string>, i: nat, read: string -> seq<Row>,
    toFloat: string -> Option<real>, sha1: string -> string)
    requires i <= |listing|
    requires BuildDataset(directory, listing[..i], read, toFloat, sha1).Err?
    ensures BuildDataset(directory, listing, read, toFloat, sha1) == BuildDataset(directory, listing[..i], read, toFloat, sha1)
    decreases |listing| - i
  {
    if i < |listing| {
      assert listing[..i + 1][..i] == listing[..i];
      BuildDatasetFailsFrom(directory, listing, i + 1, read, toFloat, sha1);
    } else {
      assert listing[..i] == listing;
    }
  }
}
