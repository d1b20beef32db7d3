# Plagiarism-similarity pipeline of `ia_plagio`, modelled in Dafny

`app.py` is a notebook application: a user uploads a PDF, the text is
extracted, the opening words are sent to the CrossRef search API, every
returned work is scored for textual similarity against the document, the
works are ranked, the five best are shown, and a PDF report gives the most
similar work's link and an average similarity. This project models the
deterministic part of that pipeline, between the library calls, and proves
what it computes.

Modules (one file each):

- `Wrappers` (`wrappers.dfy`): `Option` and `Result`.
- `PyStr` (`pystr.dfy`): the Python string operations the pipeline uses:
  `isspace`, `strip()`, `split()`, `"+".join(...)`, and `split('+')` as the
  inverse of the join.
- `Extraction` (`extraction.dfy`): `extrair_texto_pdf`. A document is the
  sequence of per-page `extract_text()` results, `None` for a page without text.
- `Crossref` (`crossref.dfy`): `buscar_referencias_crossref`. It covers the
  query, the URL and the mapping of the JSON response to
  `{titulo, resumo, link}` records. The HTTP request is a parameter
  `fetch: string -> Fetched`, which either fails (`RequestFailed`) or yields
  the decoded body.
- `Ranking` (`ranking.dfy`): the scoring loop, the stable descending sort
  and the first five, from `processar_pdf`. `calcular_similaridade` is a
  parameter `sim: (string, string) -> real`.
- `Report` (`report.dfy`): the figures of `gerar_relatorio_pdf`: the empty
  guard, the highlighted link and the average.
- `Pipeline` (`pipeline.dfy`): `processar_pdf` as a whole. `RunFor` specifies the run for a given text.

Loops in the source (`texto +=`, `referencias.append`, the scoring loop,
`soma_percentual +=`) are methods with `while` loops. Each is proved equal to
a specification function, and the properties are lemmas about those
functions. `list.sort` has no loop in the source. It is modelled by a
functional stable insertion sort, `Ranking.SortByScoreDesc`. That sort is
proved sorted, a permutation and stable, and `Ranking.RankingIsUnique`
proves that any sorted, stable arrangement is equal to it. So the model does
not depend on Python's sorting algorithm.

The average divides by the constant 5 even when fewer than five works are
listed, exactly as the code does. `Report.AverageIsScaledMean` states the
effect: the reported figure is the mean of the listed scores scaled by m / 5
for m listed works, so one perfect match is reported as 20, not 100.

Behaviour kept as the code has it:
- An empty `title` list makes `[0]` raise `IndexError` (app.py:39). That is
  not a `RequestException`, so nothing catches it and the click handler
  stops. The model returns `Crashed(EmptyTitleList(k))` for the first such
  item `k`.
- A failed request prints a message and returns `[]` (app.py:33-35).
- With no references, the code displays a message and produces no report
  (app.py:48-50). The model returns `None` from `Report.Summarize`.

## Model

| member | source | states |
|---|---|---|
| `PyStr.StripSpec` | app.py:17 | `strip()` returns a slice of the text that loses only whitespace at both ends. The result has no whitespace at either end. |
| `PyStr.StripEmptyIff` | app.py:17 | `strip()` returns `""` exactly when the text is all whitespace. |
| `PyStr.Tokens` | app.py:26 | Every token that `split()` returns is non-empty and contains no whitespace. Where one token ends and the next begins is stated by `TokensOfWord` and `TokensSplitAtSpace`. |
| `PyStr.TokensOfWord` | app.py:26 | A non-empty text without whitespace is a single token. |
| `PyStr.TokensSplitAtSpace` | app.py:26 | `split()` separates at every whitespace character: the tokens of `a + c + b`, for whitespace `c`, are the tokens of `a` followed by the tokens of `b`. With `TokensOfWord`, this fixes the token boundaries completely. |
| `PyStr.TokensOfJoin` | app.py:26 | Joining non-empty, whitespace-free words with a blank and splitting the result gives the words back. |
| `PyStr.TokensKeepAllNonSpace` | app.py:26 | Concatenating the tokens gives the text with all whitespace removed. `split()` loses nothing else. |
| `PyStr.TokensEmptyIff` | app.py:26 | `split()` returns no tokens exactly when the text is all whitespace. |
| `PyStr.SplitOnJoin` | app.py:26 | For a non-empty list of parts none of which contains the separator, splitting the joined string on it returns the original parts. (With no parts, the join is `""` and splitting gives `[""]`.) |
| `Extraction.ExtractText` | app.py:12-17 | The page loop returns the stripped concatenation of all page texts in page order. A missing page contributes `""`. |
| `Extraction.ConcatPagesAppend` | app.py:14-16 | The text of two runs of pages is the concatenation of their texts. |
| `Extraction.ConcatPagesBlankIff` | app.py:15-16 | The joined text is blank exactly when every page is missing or blank. |
| `Extraction.ExtractedTextShape` | app.py:14-17 | The extracted text starts and ends with non-whitespace. It is `""` exactly when every page is missing or blank. |
| `Crossref.QueryHasNoSpace` | app.py:26 | The query contains no whitespace. |
| `Crossref.QueryEmptyIff` | app.py:26 | The query is `""` exactly when the text is empty or all whitespace. |
| `Crossref.QueryDependsOnFirstWords` | app.py:26 | The query depends only on the text's first ten words: writing those words out with blanks between them gives the same query. |
| `Crossref.QueryIgnoresLaterWords` | app.py:26 | Once a text has at least ten words, anything appended after a whitespace character leaves the query unchanged. |
| `Crossref.QueryDecodes` | app.py:26 | For a text that is not all whitespace and whose first ten words contain no `+`, splitting the query on `+` returns those words. (For a blank text, the query is `""` and splitting gives `[""]`.) |
| `Crossref.SameQueryIff` | app.py:26 | If no word contains `+`, two texts give the same query exactly when their first ten words agree. |
| `Crossref.UrlCarriesQuery` | app.py:27 | The URL is the fixed endpoint, then the query, then `&rows=10`. The query can be read back from the URL, so distinct queries give distinct URLs. |
| `Crossref.ToReferences` | app.py:37-44 | One record per item, in item order. A missing title becomes `Título não disponível`, otherwise the title is the first element of the list. A missing abstract becomes `""`. A missing URL becomes `Link não disponível`. The mapping fails exactly when some item has an empty title list, and it fails at the first such item. |
| `Crossref.MapItems` | app.py:37-44 | The append loop computes `ToReferences`, including its failure at the first item with an empty title list. |
| `Crossref.ReferencesFromCases` | app.py:29-38 | A failed request gives `[]`. So does a body without `message` or without `items`. When the mapping does not fault, there is one record per item. |
| `Crossref.SearchReferences` | app.py:25-44 | It requests the URL built from the text's query. A failed request gives `[]`; otherwise the result is the mapping of the response items. |
| `Ranking.ScoreReferences` | app.py:99-104 | One triple per reference, in reference order. Each triple keeps the reference's title and link. Its score compares the user's text with `titulo + " " + resumo`. |
| `Ranking.SortIsSorted` | app.py:106 | The ranked list does not increase in score. |
| `Ranking.SortPermutes` | app.py:106 | The ranked list is a permutation of the scored list. |
| `Ranking.SortIsStable` | app.py:106 | For every score, entries with that score keep their original relative order. |
| `Ranking.RankingIsUnique` | app.py:106 | Any arrangement that is non-increasing and keeps equal scores in order equals the ranked list. |
| `Ranking.TopAreBest` | app.py:109 | The shown list has min(5, n) entries drawn from the scored list. No scored entry left out scores higher than a shown one. |
| `Report.GenerateReport` | app.py:47-76 | An empty list gives no report. Otherwise the highlighted link is element 0's link and the listed entries are the first min(5, n). The average is the sum of their scores / 5 * 100, which is 20 times the sum. |
| `Report.AverageBounds` | app.py:69-76 | If every score is in [0, 1], the average is in [0, 100]. Because the divisor is 5, it is at most 20 per listed entry. |
| `Report.AverageIsScaledMean` | app.py:69-76 | For m listed entries, the average is m / 5 times the mean of their scores as a percentage. So it is below that mean whenever fewer than five entries are listed and their sum is positive. |
| `Report.HighlightIsBest` | app.py:60-62 | After ranking, the highlighted link belongs to a scored entry with the maximum score. |
| `Pipeline.ProcessPdf` | app.py:92-97 | Without an upload, nothing happens. Otherwise the text extracted from the upload goes through the search and ranking run. |
| `Pipeline.SearchAndRank` | app.py:97-114 | The run ends in the uncaught mapping fault exactly when the search response has an item with an empty title list. Otherwise the run records the query URL, the references, the ranked scores, the first five and the report, in that order. |
| `Pipeline.ShownComeFromReferences` | app.py:99-109 | Every shown entry is the scored triple of one of the references the search returned. |
| `Pipeline.ReportIffReferences` | app.py:47-50 | A report is produced exactly when the search returned references. It lists min(5, n) entries. |

## Left out

- PDF parsing with PyPDF2 (app.py:13) is a foreign library. A document is given as its sequence of optional page texts.
- The HTTP request, `raise_for_status` and JSON decoding (app.py:30-32) are network I/O. They are the `fetch` parameter, and any `RequestException` is `RequestFailed`. A response is modelled only in the shape the code reads, with `message`, `items`, `title`, `abstract` and `URL` each present or absent. JSON `null` values, a non-object `message` and a string `title` are not modelled.
- The error message printed when the request fails (app.py:34) is console output.
- A body that is not valid JSON is not modelled. With requests 2.27 and later, `response.json()` (app.py:32) raises a `RequestException` subclass, which leads to `[]`, the same as `RequestFailed`. Earlier versions raise a plain `ValueError`, which nothing catches.
- `difflib.SequenceMatcher.ratio` (app.py:20-22) is a library with a floating-point result. It is the `sim` parameter. No bound is assumed, except in `Report.AverageBounds`, which states its bound as a precondition.
- Floating point: scores, the sum and the average are exact reals, with no rounding.
- The `{perc*100:.2f}` formatting, the result label text (app.py:108-112) and all FPDF layout, file writing, base64 encoding and the HTML download link (app.py:52-89) are presentation and I/O.
- The widgets and the iteration over the upload dictionary (app.py:93-95, 116-123) are UI glue. The upload is an optional document.
- The request URL is not percent-encoded by the code. The model keeps the raw string, as the code does.
