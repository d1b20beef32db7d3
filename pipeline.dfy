/** The button handler `processar_pdf`: extract the text of the uploaded
    PDF, search CrossRef, score each reference, rank, show the first five
    and build the report. The upload widget's value is the uploaded file as
    its pages, or `None` when nothing was uploaded; the request and the
    similarity measure are parameters. */
module Pipeline {
  import opened Wrappers
  import opened PyStr
  import opened Extraction
  import opened Crossref
  import opened Ranking
  import opened Report

  /** What one click produces: nothing without an upload, the uncaught
      `IndexError` of the response mapping, or the figures shown to the
      user and the report. */
  datatype Run =
    | NoUpload
    | Crashed(fault: Fault)
    | Done(text: string, url: string, references: seq<Reference>,
           ranked: seq<Scored>, shown: seq<Scored>, report: Option<Summary>)

  /** The click handler. Without an upload nothing happens; otherwise the
      text is extracted and the rest of the run follows from it. */
  method ProcessPdf(upload: Option<seq<Page>>, fetch: string -> Fetched, sim: (string, string) -> real)
    returns (run: Run)
    ensures run.NoUpload? <==> upload.None?
    ensures upload.Some? ==> run == RunFor(ExtractedText(upload.value), fetch, sim)
  {
    if upload.None? {
      return NoUpload;
    }
    var textoUsuario := ExtractText(upload.value);
    run := SearchAndRank(textoUsuario, fetch, sim);
  }

  /** What the handler produces from the extracted text, stage by stage. */
  function RunFor(text: string, fetch: string -> Fetched, sim: (string, string) -> real): Run {
    var url := Url(Query(text));
    match ReferencesFrom(fetch(url))
    case Err(e) => Crashed(e)
    case Ok(refs) =>
      var ranked := SortByScoreDesc(ScoreAll(text, refs, sim));
      Done(text, url, refs, ranked, Top(ranked), Summarize(ranked))
  }

  /** The handler after extraction: search, score, sort, take five, report.
      The run carries the request URL, the references, their ranking, the
      five shown and the report, each stage as specified by its own function,
      or the fault that the response mapping raised. */
  method SearchAndRank(text: string, fetch: string -> Fetched, sim: (string, string) -> real)
    returns (run: Run)
    ensures run.Crashed? <==> ReferencesFrom(fetch(Url(Query(text)))).Err?
    ensures run == RunFor(text, fetch, sim)
  {
    var found := SearchReferences(text, fetch);
    if found.Err? {
      return Crashed(found.error);
    }
    var referencias := found.value;
    var scored := ScoreReferences(text, referencias, sim);
    var ranked := SortByScoreDesc(scored);
    var shown := ranked[..Min(Shown, |ranked|)];
    var report := GenerateReport(ranked);
    run := Done(text, Url(Query(text)), referencias, ranked, shown, report);
  }

  /** Every shown entry is the scored triple of one of the references that
      the search returned. */
  lemma ShownComeFromReferences(text: string, refs: seq<Reference>, sim: (string, string) -> real)
    ensures forall x :: x in Top(SortByScoreDesc(ScoreAll(text, refs, sim))) ==>
              exists i :: 0 <= i < |refs| && x == ScoreOf(text, refs[i], sim)
  {
    var scored := ScoreAll(text, refs, sim);
    var ranked := SortByScoreDesc(scored);
    SortPermutes(scored);
    forall x | x in Top(ranked) ensures exists i :: 0 <= i < |refs| && x == ScoreOf(text, refs[i], sim) {
      assert x in ranked;
      assert x in multiset(scored);
      var i :| 0 <= i < |scored| && scored[i] == x;
    }
  }

  /** A report is produced exactly when the search returned references; it
      lists min(5, n) of them. */
  lemma ReportIffReferences(text: string, refs: seq<Reference>, sim: (string, string) -> real)
    ensures var r := Summarize(SortByScoreDesc(ScoreAll(text, refs, sim)));
            (r.Some? <==> refs != [])
            && (r.Some? ==> |r.value.entries| == Min(Shown, |refs|))
  {
    var scored := ScoreAll(text, refs, sim);
    SortPermutes(scored);
    assert |SortByScoreDesc(scored)| == |scored| by {
      assert |multiset(SortByScoreDesc(scored))| == |multiset(scored)|;
    }
  }
}
