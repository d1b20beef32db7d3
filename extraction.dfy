/** Text extraction from an uploaded PDF (`extrair_texto_pdf`). The PDF
    reader is not modelled: a document is the sequence of what each page's
    `extract_text()` returned, `None` for a page that yields nothing. */
module Extraction {
  import opened Wrappers
  import opened PyStr

  type Page = Option<string>

  /** `pagina.extract_text() or ""`: a missing page counts as empty text. */
  function PageText(p: Page): string {
    p.GetOr("")
  }

  /** All page texts, one after the other, in page order. */
  function ConcatPages(pages: seq<Page>): string {
    if pages == [] then ""
    else ConcatPages(pages[..|pages| - 1]) + PageText(pages[|pages| - 1])
  }

  /** The text `extrair_texto_pdf` returns. */
  function ExtractedText(pages: seq<Page>): string {
    Strip(ConcatPages(pages))
  }

  /** The page loop: `texto += pagina.extract_text() or ""`, then `strip()`. */
  method ExtractText(pages: seq<Page>) returns (text: string)
    ensures text == ExtractedText(pages)
  {
    var texto := "";
    var i := 0;
    while i < |pages|
      invariant 0 <= i <= |pages|
      invariant texto == ConcatPages(pages[..i])
    {
      assert pages[..i + 1][..i] == pages[..i];
      texto := texto + PageText(pages[i]);
      i := i + 1;
    }
    assert pages[..i] == pages;
    text := Strip(texto);
  }

  /** Concatenating two documents' pages concatenates their texts. */
  lemma {:induction false} ConcatPagesAppend(p: seq<Page>, q: seq<Page>)
    ensures ConcatPages(p + q) == ConcatPages(p) + ConcatPages(q)
    decreases |q|
  {
    if q == [] {
      assert p + q == p;
    } else {
      var q' := q[..|q| - 1];
      assert (p + q)[..|p + q| - 1] == p + q';
      ConcatPagesAppend(p, q');
    }
  }

  /** The joined text is blank exactly when every page is missing or blank. */
  lemma {:induction false} ConcatPagesBlankIff(pages: seq<Page>)
    ensures AllSpace(ConcatPages(pages))
        <==> forall i :: 0 <= i < |pages| ==> AllSpace(PageText(pages[i]))
  {
    if pages != [] {
      var init := pages[..|pages| - 1];
      var last := PageText(pages[|pages| - 1]);
      ConcatPagesBlankIff(init);
      var a := ConcatPages(init);
      assert ConcatPages(pages) == a + last;
      assert AllSpace(a + last) <==> AllSpace(a) && AllSpace(last) by {
        assert forall k :: 0 <= k < |a| ==> (a + last)[k] == a[k];
        assert forall k :: 0 <= k < |last| ==> (a + last)[|a| + k] == last[k];
      }
      assert forall i :: 0 <= i < |init| ==> init[i] == pages[i];
    }
  }

  /** The extracted text neither starts nor ends with whitespace, and it is
      empty exactly when every page is missing or blank. */
  lemma ExtractedTextShape(pages: seq<Page>)
    ensures var t := ExtractedText(pages);
            t == [] || (!IsSpace(t[0]) && !IsSpace(t[|t| - 1]))
    ensures ExtractedText(pages) == []
        <==> forall i :: 0 <= i < |pages| ==> AllSpace(PageText(pages[i]))
  {
    var joined := ConcatPages(pages);
    assert ExtractedText(pages) == Strip(joined);
    ConcatPagesBlankIff(pages);
    var _ := StripSpec(joined);
    StripEmptyIff(joined);
  }
}
