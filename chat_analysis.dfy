// The query responder: a fixed keyword router over a lower-cased query, and
// the best/worst/trade-off answers computed from the dataset's rows. The
// DataFrame is its sequence of rows; `idxmin`/`idxmax` pick the first row
// holding the extremum; number formatting is a parameter.
module ChatAnalysis {
  import opened Text

  /** One row of the dashboard's DataFrame. */
  datatype Run = Run(runId: string, wer: real, bleu: real)

  /** `f"{x:.{digits}f}"`: fixed-point formatting, left abstract. */
  type Formatter = (real, nat) -> string

  const NotAvailable: string := "N/A"

  const TradeoffExplanation: string :=
    "In speech recognition, WER (Word Error Rate) and BLEU (Bilingual Evaluation Understudy) "
    + "often have an inverse relationship. Generally, models with lower WER are better as they "
    + "indicate fewer errors. Higher BLEU scores are also better, indicating higher quality "
    + "transcriptions. \n\nHowever, improving one metric might sometimes lead to a slight decrease "
    + "in the other, indicating a trade-off. It's important to consider both when evaluating models."

  const HelpText: string :=
    "I can help you by telling you about the 'best model', 'worst model', or the 'WER-BLEU tradeoff'."

  /** The `wer` and `bleu` columns. */
  function Wers(df: seq<Run>): seq<real> {
    seq(|df|, i requires 0 <= i < |df| => df[i].wer)
  }

  function Bleus(df: seq<Run>): seq<real> {
    seq(|df|, i requires 0 <= i < |df| => df[i].bleu)
  }

  /** `Series.idxmin()`: the first position holding the smallest value. */
  function FirstMinIndex(xs: seq<real>): (k: nat)
    requires |xs| > 0
    ensures k < |xs|
    ensures forall j :: 0 <= j < |xs| ==> xs[k] <= xs[j]
    ensures forall j :: 0 <= j < k ==> xs[k] < xs[j]
  {
    if |xs| == 1 then 0
    else
      var k := FirstMinIndex(xs[..|xs| - 1]);
      if xs[|xs| - 1] < xs[k] then |xs| - 1 else k
  }

  /** `Series.idxmax()`: the first position holding the largest value. */
  function FirstMaxIndex(xs: seq<real>): (k: nat)
    requires |xs| > 0
    ensures k < |xs|
    ensures forall j :: 0 <= j < |xs| ==> xs[j] <= xs[k]
    ensures forall j :: 0 <= j < k ==> xs[j] < xs[k]
  {
    if |xs| == 1 then 0
    else
      var k := FirstMaxIndex(xs[..|xs| - 1]);
      if xs[k] < xs[|xs| - 1] then |xs| - 1 else k
  }

  /** The opening words of the combined sentence. */
  function OverallOpening(adjective: string): string {
    "The " + adjective + " overall model is "
  }

  /** The combined sentence, used when one run wins both metrics. */
  function OverallSentence(adjective: string, werRow: Run, bleuRow: Run, format: Formatter): (r: string)
    ensures StartsWith(r, OverallOpening(adjective))
    ensures StartsWith(r[|OverallOpening(adjective)|..], werRow.runId + " with WER: ")
  {
    var rest := werRow.runId + " with WER: " + format(werRow.wer, 4) + " and BLEU: " + format(bleuRow.bleu, 2) + ".";
    StartsWithConcat(OverallOpening(adjective), rest);
    assert (OverallOpening(adjective) + rest)[|OverallOpening(adjective)|..] == rest;
    StartsWithConcat(werRow.runId + " with WER: ", format(werRow.wer, 4) + " and BLEU: " + format(bleuRow.bleu, 2) + ".");
    assert rest == (werRow.runId + " with WER: ") + (format(werRow.wer, 4) + " and BLEU: " + format(bleuRow.bleu, 2) + ".");
    OverallOpening(adjective) + rest
  }

  /** The two-part sentence, used when different runs win the two metrics. */
  function TwoPartSentence(heading: string, werRow: Run, bleuRow: Run, format: Formatter): (r: string)
    ensures StartsWith(r, heading + " WER: " + werRow.runId + " (")
  {
    var opening := heading + " WER: " + werRow.runId + " (";
    var rest := format(werRow.wer, 4) + "). " + heading + " BLEU: " + bleuRow.runId + " (" + format(bleuRow.bleu, 2) + ").";
    StartsWithConcat(opening, rest);
    assert heading + (" WER: " + werRow.runId + " (" + rest) == opening + rest;
    heading + (" WER: " + werRow.runId + " (" + rest)
  }

  /** The answer about the two selected rows: one sentence when they share a run_id, two otherwise. */
  function Describe(adjective: string, heading: string, werRow: Run, bleuRow: Run, format: Formatter): (r: string)
    ensures r != NotAvailable
  {
    if werRow.runId == bleuRow.runId then OverallSentence(adjective, werRow, bleuRow, format)
    else TwoPartSentence(heading, werRow, bleuRow, format)
  }

  /** The rows `get_best_model` reports: the first with the lowest WER and
      the first with the highest BLEU. */
  function BestRows(df: seq<Run>): (rows: (nat, nat))
    requires df != []
    ensures rows.0 < |df| && rows.1 < |df|
    ensures forall j :: 0 <= j < |df| ==> df[rows.0].wer <= df[j].wer
    ensures forall j :: 0 <= j < rows.0 ==> df[rows.0].wer < df[j].wer
    ensures forall j :: 0 <= j < |df| ==> df[j].bleu <= df[rows.1].bleu
    ensures forall j :: 0 <= j < rows.1 ==> df[j].bleu < df[rows.1].bleu
  {
    var w := FirstMinIndex(Wers(df));
    var b := FirstMaxIndex(Bleus(df));
    assert forall j :: 0 <= j < |df| ==> Wers(df)[j] == df[j].wer && Bleus(df)[j] == df[j].bleu;
    (w, b)
  }

  /** The rows `get_worst_model` reports: the first with the highest WER and
      the first with the lowest BLEU. */
  function WorstRows(df: seq<Run>): (rows: (nat, nat))
    requires df != []
    ensures rows.0 < |df| && rows.1 < |df|
    ensures forall j :: 0 <= j < |df| ==> df[j].wer <= df[rows.0].wer
    ensures forall j :: 0 <= j < rows.0 ==> df[j].wer < df[rows.0].wer
    ensures forall j :: 0 <= j < |df| ==> df[rows.1].bleu <= df[j].bleu
    ensures forall j :: 0 <= j < rows.1 ==> df[rows.1].bleu < df[j].bleu
  {
    var w := FirstMaxIndex(Wers(df));
    var b := FirstMinIndex(Bleus(df));
    assert forall j :: 0 <= j < |df| ==> Wers(df)[j] == df[j].wer && Bleus(df)[j] == df[j].bleu;
    (w, b)
  }

  /** The first lowest WER and the first highest BLEU are each at one position only. */
  lemma BestRowsAre(df: seq<Run>, w: nat, b: nat)
    requires w < |df| && b < |df|
    requires forall j :: 0 <= j < |df| ==> df[w].wer <= df[j].wer
    requires forall j :: 0 <= j < w ==> df[w].wer < df[j].wer
    requires forall j :: 0 <= j < |df| ==> df[j].bleu <= df[b].bleu
    requires forall j :: 0 <= j < b ==> df[j].bleu < df[b].bleu
    ensures BestRows(df) == (w, b)
  {
    var rows := BestRows(df);
    assert !(rows.0 < w) && !(w < rows.0);
    assert !(rows.1 < b) && !(b < rows.1);
  }

  /** The first highest WER and the first lowest BLEU are each at one position only. */
  lemma WorstRowsAre(df: seq<Run>, w: nat, b: nat)
    requires w < |df| && b < |df|
    requires forall j :: 0 <= j < |df| ==> df[j].wer <= df[w].wer
    requires forall j :: 0 <= j < w ==> df[j].wer < df[w].wer
    requires forall j :: 0 <= j < |df| ==> df[b].bleu <= df[j].bleu
    requires forall j :: 0 <= j < b ==> df[b].bleu < df[j].bleu
    ensures WorstRows(df) == (w, b)
  {
    var rows := WorstRows(df);
    assert !(rows.0 < w) && !(w < rows.0);
    assert !(rows.1 < b) && !(b < rows.1);
  }

  /** A sentence never reads "N/A"; it opens with the combined form's words
      exactly when the two rows share a run_id. */
  lemma DescribeForm(adjective: string, heading: string, werRow: Run, bleuRow: Run, format: Formatter)
    requires |heading| > 0 && heading[0] != 'T' && heading[0] != 'N'
    ensures var r := Describe(adjective, heading, werRow, bleuRow, format);
      && r != NotAvailable
      && (StartsWith(r, OverallOpening(adjective)) <==> werRow.runId == bleuRow.runId)
  {
    var prefix := OverallOpening(adjective);
    if werRow.runId == bleuRow.runId {
      StartsWithConcat(prefix, werRow.runId + " with WER: " + format(werRow.wer, 4)
        + " and BLEU: " + format(bleuRow.bleu, 2) + ".");
    } else {
      StartsWithFirstChar(TwoPartSentence(heading, werRow, bleuRow, format), prefix);
    }
  }

  /** `get_best_model`. */
  function GetBestModel(df: seq<Run>, format: Formatter): (r: string)
    ensures r == NotAvailable <==> df == []
    ensures df != [] ==>
      var (w, b) := BestRows(df);
      StartsWith(r, OverallOpening("best")) <==> df[w].runId == df[b].runId
  {
    if df == [] then NotAvailable
    else
      var (w, b) := BestRows(df);
      DescribeForm("best", "Best", df[w], df[b], format);
      Describe("best", "Best", df[w], df[b], format)
  }

  /** `get_worst_model`. */
  function GetWorstModel(df: seq<Run>, format: Formatter): (r: string)
    ensures r == NotAvailable <==> df == []
    ensures df != [] ==>
      var (w, b) := WorstRows(df);
      StartsWith(r, OverallOpening("worst")) <==> df[w].runId == df[b].runId
  {
    if df == [] then NotAvailable
    else
      var (w, b) := WorstRows(df);
      DescribeForm("worst", "Worst", df[w], df[b], format);
      Describe("worst", "Worst", df[w], df[b], format)
  }

  /** `get_best_model` in full: whichever rows are the first with the lowest
      WER and the first with the highest BLEU, the answer names them and
      their metrics, in one sentence when they share a run_id. */
  lemma BestReportsExtremes(df: seq<Run>, format: Formatter, w: nat, b: nat)
    requires w < |df| && b < |df|
    requires forall j :: 0 <= j < |df| ==> df[w].wer <= df[j].wer
    requires forall j :: 0 <= j < w ==> df[w].wer < df[j].wer
    requires forall j :: 0 <= j < |df| ==> df[j].bleu <= df[b].bleu
    requires forall j :: 0 <= j < b ==> df[j].bleu < df[b].bleu
    ensures GetBestModel(df, format) ==
      if df[w].runId == df[b].runId then OverallSentence("best", df[w], df[b], format)
      else TwoPartSentence("Best", df[w], df[b], format)
  {
    BestRowsAre(df, w, b);
  }

  /** `get_worst_model` in full: the first row with the highest WER and the
      first with the lowest BLEU, named with their metrics. */
  lemma WorstReportsExtremes(df: seq<Run>, format: Formatter, w: nat, b: nat)
    requires w < |df| && b < |df|
    requires forall j :: 0 <= j < |df| ==> df[j].wer <= df[w].wer
    requires forall j :: 0 <= j < w ==> df[j].wer < df[w].wer
    requires forall j :: 0 <= j < |df| ==> df[b].bleu <= df[j].bleu
    requires forall j :: 0 <= j < b ==> df[b].bleu < df[j].bleu
    ensures GetWorstModel(df, format) ==
      if df[w].runId == df[b].runId then OverallSentence("worst", df[w], df[b], format)
      else TwoPartSentence("Worst", df[w], df[b], format)
  {
    WorstRowsAre(df, w, b);
  }

  /** `explain_tradeoff`. */
  function ExplainTradeoff(df: seq<Run>): (r: string)
    ensures r == NotAvailable <==> df == []
  {
    if df == [] then NotAvailable else TradeoffExplanation
  }

  /** The trade-off answer does not depend on the rows, only on there being some. */
  lemma TradeoffIgnoresData(df1: seq<Run>, df2: seq<Run>)
    requires df1 != [] && df2 != []
    ensures ExplainTradeoff(df1) == ExplainTradeoff(df2) != NotAvailable
  {
  }

  /** The keyword tests of `get_analysis_response`, on the lower-cased query, in their fixed order. */
  function Route(q: string, df: seq<Run>, format: Formatter): (r: string)
    ensures r == NotAvailable ==> df == []
  {
    if Contains(q, "best model") then GetBestModel(df, format)
    else if Contains(q, "worst model") then GetWorstModel(df, format)
    else if Contains(q, "wer-bleu tradeoff") || Contains(q, "tradeoff") then ExplainTradeoff(df)
    else HelpText
  }

  /** `get_analysis_response`: lower-case the query, then route it. The
      answer is always one of the three data answers or the help text. */
  function GetAnalysisResponse(query: string, df: seq<Run>, format: Formatter): (r: string)
    ensures r == GetBestModel(df, format) || r == GetWorstModel(df, format) || r == ExplainTradeoff(df) || r == HelpText
  {
    RouteAnswers(Lower(query), df, format);
    Route(Lower(query), df, format)
  }

  lemma RouteAnswers(q: string, df: seq<Run>, format: Formatter)
    ensures var r := Route(q, df, format);
      r == GetBestModel(df, format) || r == GetWorstModel(df, format) || r == ExplainTradeoff(df) || r == HelpText
  {
    if Contains(q, "best model") {
      assert Route(q, df, format) == GetBestModel(df, format);
    } else if Contains(q, "worst model") {
      assert Route(q, df, format) == GetWorstModel(df, format);
    } else if Contains(q, "wer-bleu tradeoff") || Contains(q, "tradeoff") {
      assert Route(q, df, format) == ExplainTradeoff(df);
    } else {
      assert Route(q, df, format) == HelpText;
    }
  }

  /** A query mentioning "wer-bleu tradeoff" mentions "tradeoff". */
  lemma TradeoffPhraseSubsumed(q: string)
    ensures Contains(q, "wer-bleu tradeoff") ==> Contains(q, "tradeoff")
  {
    if Contains(q, "wer-bleu tradeoff") {
      assert "wer-bleu tradeoff"[9..17] == "tradeoff";
      ContainsTransitive(q, "wer-bleu tradeoff", "tradeoff", 9);
    }
  }

  /** The router's priority: "best model" wins over everything, then "worst
      model", then "tradeoff" (the longer phrase adds nothing), then help. */
  lemma RoutePriority(query: string, df: seq<Run>, format: Formatter)
    ensures var q := Lower(query);
      var r := GetAnalysisResponse(query, df, format);
      && (Contains(q, "best model") ==> r == GetBestModel(df, format))
      && (!Contains(q, "best model") && Contains(q, "worst model") ==> r == GetWorstModel(df, format))
      && (!Contains(q, "best model") && !Contains(q, "worst model") && Contains(q, "tradeoff") ==> r == ExplainTradeoff(df))
      && (!Contains(q, "best model") && !Contains(q, "worst model") && !Contains(q, "tradeoff") ==> r == HelpText)
  {
    TradeoffPhraseSubsumed(Lower(query));
  }

  /** The router ignores case: queries that agree letter for letter up to
      case get the same answer. */
  lemma RouteIgnoresCase(query1: string, query2: string, df: seq<Run>, format: Formatter)
    requires |query1| == |query2|
    requires forall i :: 0 <= i < |query1| ==> LowerChar(query1[i]) == LowerChar(query2[i])
    ensures GetAnalysisResponse(query1, df, format) == GetAnalysisResponse(query2, df, format)
  {
    forall i | 0 <= i < |query1| ensures Lower(query1)[i] == Lower(query2)[i] {
      assert LowerChar(query1[i]) == LowerChar(query2[i]);
    }
    assert Lower(query1) == Lower(query2);
  }

  /** On an empty dataset the three data answers are "N/A" and anything else gets the help text. */
  lemma EmptyDatasetResponses(query: string, format: Formatter)
    ensures var q := Lower(query);
      var r := GetAnalysisResponse(query, [], format);
      && (Contains(q, "best model") || Contains(q, "worst model") || Contains(q, "tradeoff") ==> r == NotAvailable)
      && (!Contains(q, "best model") && !Contains(q, "worst model") && !Contains(q, "tradeoff") ==> r == HelpText)
  {
    RoutePriority(query, [], format);
  }

  /** A single-row dataset gets the combined "best overall" sentence. */
  lemma SingleRunIsBestOverall(run: Run, format: Formatter)
    ensures GetBestModel([run], format) == OverallSentence("best", run, run, format)
  {
  }

  /** Two runs, each best on one metric, get the two-part sentence naming
      the lower-WER run for WER and the higher-BLEU run for BLEU. */
  lemma TwoRunsSplitBest(first: Run, second: Run, format: Formatter)
    requires first.runId != second.runId
    requires second.wer < first.wer && second.bleu < first.bleu
    ensures GetBestModel([first, second], format) == TwoPartSentence("Best", second, first, format)
  {
    var df := [first, second];
    var (w, b) := BestRows(df);
    assert w == 1 && b == 0;
  }
}
