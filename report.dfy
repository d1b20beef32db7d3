/** The figures of the similarity report (`gerar_relatorio_pdf`): whether a
    report is produced, the highlighted link, the five entries listed and
    the average. Layout, fonts, file writing and the download link are not
    modelled. */
module Report {
  import opened Wrappers
  import opened PyStr
  import opened Ranking

  /** The average divides by this constant, whatever the number of entries. */
  const Divisor: real := 5.0

  /** The report's content: the link printed in blue under the heading for
      the most similar article, the listed entries and `plágio_medio`. */
  datatype Summary = Summary(highlight: string, entries: seq<Scored>, average: real)

  /** Sum of the scores, accumulated left to right. */
  function SumScores(s: seq<Scored>): real {
    if s == [] then 0.0 else SumScores(s[..|s| - 1]) + s[|s| - 1].score
  }

  /** The report for a ranked list; `None` when there is nothing to report. */
  function Summarize(ranked: seq<Scored>): Option<Summary> {
    if ranked == [] then None
    else
      var top := Top(ranked);
      Some(Summary(ranked[0].link, top, SumScores(top) / Divisor * 100.0))
  }

  /** The report's arithmetic: an empty list gives no report; otherwise the
      highlighted link is entry 0's, the listed entries are the first
      min(5, n) and the average is 20 times their score sum. */
  method GenerateReport(ranked: seq<Scored>) returns (report: Option<Summary>)
    ensures report == Summarize(ranked)
    ensures report.None? <==> ranked == []
    ensures report.Some? ==> report.value.highlight == ranked[0].link
                             && report.value.entries == ranked[..Min(Shown, |ranked|)]
                             && report.value.average == 20.0 * SumScores(report.value.entries)
  {
    if ranked == [] {
      return None;
    }
    var highlight := ranked[0].link;
    var top := ranked[..Min(Shown, |ranked|)];
    var somaPercentual := 0.0;
    var i := 0;
    while i < |top|
      invariant 0 <= i <= |top|
      invariant somaPercentual == SumScores(top[..i])
    {
      assert top[..i + 1][..i] == top[..i];
      somaPercentual := somaPercentual + top[i].score;
      i := i + 1;
    }
    assert top[..i] == top;
    var plagioMedio := (somaPercentual / Divisor) * 100.0;
    report := Some(Summary(highlight, top, plagioMedio));
  }

  /** Scores in [0, 1] sum to a value in [0, n]. */
  lemma {:induction false} SumScoresBounds(s: seq<Scored>)
    requires forall i :: 0 <= i < |s| ==> 0.0 <= s[i].score <= 1.0
    ensures 0.0 <= SumScores(s) <= |s| as real
  {
    if s != [] {
      SumScoresBounds(s[..|s| - 1]);
    }
  }

  /** With every score in [0, 1] the average lies in [0, 100]; because the
      divisor stays 5, it is at most 20 per listed entry. */
  lemma AverageBounds(ranked: seq<Scored>)
    requires ranked != []
    requires forall i :: 0 <= i < |ranked| ==> 0.0 <= ranked[i].score <= 1.0
    ensures var avg := Summarize(ranked).value.average;
            0.0 <= avg <= 20.0 * (Min(Shown, |ranked|) as real) <= 100.0
  {
    SumScoresBounds(Top(ranked));
  }

  /** The reported average is the true mean of the listed scores, as a
      percentage, scaled by m / 5 for the m listed entries: below that mean
      whenever fewer than five entries are listed and their sum is
      positive (one perfect match gives 20, not 100). */
  lemma AverageIsScaledMean(ranked: seq<Scored>)
    requires ranked != []
    ensures var m := Min(Shown, |ranked|) as real;
            var mean := 100.0 * SumScores(Top(ranked)) / m;
            Summarize(ranked).value.average == (m / Divisor) * mean
            && (m < Divisor && SumScores(Top(ranked)) > 0.0 ==> Summarize(ranked).value.average < mean)
  {
    var m := Min(Shown, |ranked|) as real;
    var sum := SumScores(Top(ranked));
    var mean := 100.0 * sum / m;
    assert m * mean == 100.0 * sum;
    assert Summarize(ranked).value.average == 100.0 * sum / Divisor;
    if m < Divisor && sum > 0.0 {
      assert mean > 0.0;
      assert (m / Divisor) * mean < mean;
    }
  }

  /** After ranking, the highlighted link belongs to a scored entry whose
      score is the maximum of all scores. */
  lemma HighlightIsBest(scored: seq<Scored>)
    requires scored != []
    ensures var ranked := SortByScoreDesc(scored);
            var best := ranked[0];
            Summarize(ranked).Some? && Summarize(ranked).value.highlight == best.link
            && best in scored
            && forall y :: y in scored ==> y.score <= best.score
  {
    var ranked := SortByScoreDesc(scored);
    SortPermutes(scored);
    SortIsSorted(scored);
    assert |ranked| == |scored| by {
      assert |multiset(ranked)| == |multiset(scored)|;
    }
    assert ranked[0] in multiset(scored);
    forall y | y in scored ensures y.score <= ranked[0].score {
      assert y in multiset(ranked);
      var j :| 0 <= j < |ranked| && ranked[j] == y;
    }
  }
}
