/**
 * `extract_text_from_pdf_file`: the text of every page that has some,
 * each followed by a newline, in page order; "" when the document cannot be
 * opened or a page raises while its text is extracted.
 *
 * The PDF parser is not modelled: a document is what the parser yields for
 * it, either a failure to open or the outcome of `extract_text()` per page.
 */
module Extraction {
  import opened Wrappers

  /** The outcome of `page.extract_text()`: some text, `None`, or an exception. */
  datatype PageResult = Extracted(text: Option<string>) | Raised

  /** The outcome of `pdfplumber.open`: an exception, or the document's pages. */
  datatype PdfSource = Unreadable | Opened(pages: seq<PageResult>)

  /** What one page adds: its text and a newline, or nothing when the text is `None` or empty. */
  function PageContribution(p: Option<string>): string {
    match p
    case Some(s) => if s != "" then s + "\n" else ""
    case None => ""
  }

  /** The page texts joined by the rule above, in page order. */
  function JoinPages(ps: seq<Option<string>>): string {
    if ps == [] then "" else PageContribution(ps[0]) + JoinPages(ps[1..])
  }

  /** The texts of pages of which none raised. */
  function PageTexts(pages: seq<PageResult>): (ts: seq<Option<string>>)
    requires Raised !in pages
    ensures |ts| == |pages|
    ensures forall i :: 0 <= i < |pages| ==> pages[i] == Extracted(ts[i])
  {
    if pages == [] then [] else [pages[0].text] + PageTexts(pages[1..])
  }

  /** The loop of `extract_text_from_pdf_file`, with its exception handler. */
  method ExtractText(src: PdfSource) returns (text: string)
    ensures src.Unreadable? ==> text == ""
    ensures src.Opened? && Raised in src.pages ==> text == ""
    ensures src.Opened? && Raised !in src.pages ==> text == JoinPages(PageTexts(src.pages))
  {
    text := "";
    if src.Unreadable? {
      return "";
    }
    var pages := src.pages;
    for i := 0 to |pages|
      invariant forall j :: 0 <= j < i ==> pages[j].Extracted?
      invariant Raised !in pages ==> text + JoinPages(PageTexts(pages[i..])) == JoinPages(PageTexts(pages))
    {
      if pages[i].Raised? {
        return "";
      }
      var ptext := pages[i].text;
      if Raised !in pages {
        JoinPagesStep(pages, i, text);
      }
      if ptext.Some? && ptext.value != "" {
        text := text + (ptext.value + "\n");
      }
    }
    assert forall p :: p in pages ==> p.Extracted?;
  }

  /** One step of the loop: page `i`'s contribution moves from the rest into the text. */
  lemma JoinPagesStep(pages: seq<PageResult>, i: nat, text: string)
    requires Raised !in pages && i < |pages|
    ensures text + JoinPages(PageTexts(pages[i..]))
         == (text + PageContribution(pages[i].text)) + JoinPages(PageTexts(pages[i + 1..]))
  {
    assert pages[i..][1..] == pages[i + 1..];
    var rest := JoinPages(PageTexts(pages[i + 1..]));
    assert JoinPages(PageTexts(pages[i..])) == PageContribution(pages[i].text) + rest;
    assert text + (PageContribution(pages[i].text) + rest) == (text + PageContribution(pages[i].text)) + rest;
  }

  /** The non-empty page texts, in page order. */
  function NonEmptyTexts(ps: seq<Option<string>>): seq<string> {
    if ps == [] then []
    else (match ps[0] case Some(s) => if s != "" then [s] else [] case None => [])
         + NonEmptyTexts(ps[1..])
  }

  /** Joining distributes over splitting the page list. */
  lemma {:induction false} JoinPagesAppend(a: seq<Option<string>>, b: seq<Option<string>>)
    ensures JoinPages(a + b) == JoinPages(a) + JoinPages(b)
  {
    if a != [] {
      assert (a + b)[1..] == a[1..] + b;
      JoinPagesAppend(a[1..], b);
    } else {
      assert a + b == b;
    }
  }

  /** A page whose text is `None` or empty leaves the joined text unchanged. */
  lemma EmptyPageContributesNothing(before: seq<Option<string>>, p: Option<string>, after: seq<Option<string>>)
    requires p == None || p == Some("")
    ensures JoinPages(before + [p] + after) == JoinPages(before + after)
  {
    var single: seq<Option<string>> := [p];
    assert JoinPages(single) == "" by {
      assert single[1..] == [];
    }
    JoinPagesAppend(before + single, after);
    JoinPagesAppend(before, single);
    JoinPagesAppend(before, after);
    assert JoinPages(before + single) == JoinPages(before);
  }

  /** Index of the first newline of `s`, or `|s|` when there is none. */
  function LineEnd(s: string): (k: nat)
    ensures k <= |s|
    ensures forall j :: 0 <= j < k ==> s[j] != '\n'
    ensures k < |s| ==> s[k] == '\n'
  {
    if s == [] || s[0] == '\n' then 0 else 1 + LineEnd(s[1..])
  }

  /** The newline-terminated lines of `s` (a final unterminated piece is a line too). */
  function Lines(s: string): seq<string>
    decreases |s|
  {
    if s == [] then []
    else
      var k := LineEnd(s);
      if k == |s| then [s] else [s[..k]] + Lines(s[k + 1..])
  }

  lemma LinesOfLine(p: string, rest: string)
    requires '\n' !in p
    ensures Lines(p + "\n" + rest) == [p] + Lines(rest)
  {
    var s := p + "\n" + rest;
    var k := LineEnd(s);
    assert s[|p|] == '\n';
    assert k == |p|;
    assert s[..k] == p;
    assert s[k + 1..] == rest;
  }

  /**
   * When no page text holds a newline, the joined text splits back into the
   * non-empty page texts, in page order, with none dropped or repeated.
   */
  lemma {:induction false} JoinPagesLines(ps: seq<Option<string>>)
    requires forall i :: 0 <= i < |ps| && ps[i].Some? ==> '\n' !in ps[i].value
    ensures Lines(JoinPages(ps)) == NonEmptyTexts(ps)
  {
    if ps != [] {
      JoinPagesLines(ps[1..]);
      if ps[0].Some? && ps[0].value != "" {
        LinesOfLine(ps[0].value, JoinPages(ps[1..]));
      } else {
        assert JoinPages(ps) == JoinPages(ps[1..]);
        assert NonEmptyTexts(ps) == NonEmptyTexts(ps[1..]);
      }
    }
  }
}
