/**
 * What the two PDF viewers share: the page-numbered text export, the name
 * of the file it is offered under, the choice of the page shown, and the
 * panel shown for that page's text.  The PDF library is not modelled: the
 * outcome of asking it for a page's text is an input.
 */
module Viewer {
  import opened Wrappers
  import opened Strings

  /** What asking the PDF library for a page's text gave: some text, no
      text (`None`), or an exception. */
  datatype Extraction = Text(text: string) | NoText | Raised

  // =============================================================== export

  /** The line that introduces page `n` (counted from one) in the export. */
  function PageHeader(n: nat): string {
    "\n\n===== Page " + NatToString(n) + " =====\n\n"
  }

  /** Page `n`'s part of the export: its header, then its text. */
  function Section(n: nat, text: string): string {
    PageHeader(n) + text
  }

  function Sections(texts: seq<string>): seq<string> {
    seq(|texts|, i requires 0 <= i < |texts| => Section(i + 1, texts[i]))
  }

  /** The export of pages with the given texts: every page's section, in
      page order, with nothing in between. */
  function Export(texts: seq<string>): string {
    Join(Sections(texts), "")
  }

  /** The export is empty exactly when there are no pages: every page,
      even one without text, contributes its header. */
  lemma ExportEmptyIff(texts: seq<string>)
    ensures Export(texts) == "" <==> texts == []
  {
    JoinEmptyIff(Sections(texts), "");
  }

  /** One more page appends its header and text at the end. */
  lemma ExportNextPage(texts: seq<string>, t: string)
    ensures Export(texts + [t]) == Export(texts) + PageHeader(|texts| + 1) + t
  {
    assert Sections(texts + [t]) == Sections(texts) + [Section(|texts| + 1, t)];
    JoinNoSeparatorSnoc(Sections(texts), Section(|texts| + 1, t));
  }

  /** Every page's header, followed by its text, occurs in the export. */
  lemma ExportHasPage(texts: seq<string>, i: nat)
    requires i < |texts|
    ensures Contains(Export(texts), PageHeader(i + 1) + texts[i])
  {
    JoinContainsPart(Sections(texts), "", i);
  }

  /** The page number can be read back from a header, so distinct pages
      have distinct headers. */
  lemma PageHeaderInjective(m: nat, n: nat)
    requires PageHeader(m) == PageHeader(n)
    ensures m == n
  {
    var h, k := PageHeader(m), PageHeader(n);
    assert h[13..|h| - 8] == NatToString(m);
    assert k[13..|k| - 8] == NatToString(n);
    NatToStringInjective(m, n);
  }

  /** The download button is offered when an export has been stored and
      is not empty. */
  predicate DownloadOffered(stored: Option<string>) {
    stored.Some? && stored.value != ""
  }

  // ============================================================= filename

  /** The position of the last `c` in `s`, if there is one. */
  function LastIndexOf(s: string, c: char): (r: Option<nat>)
    ensures r.None? ==> c !in s
    ensures r.Some? ==> r.value < |s| && s[r.value] == c && c !in s[r.value + 1..]
  {
    if s == [] then None
    else if s[|s| - 1] == c then Some(|s| - 1)
    else
      var r := LastIndexOf(s[..|s| - 1], c);
      assert s == s[..|s| - 1] + [s[|s| - 1]];
      if r.Some? then
        assert s[r.value + 1..] == s[..|s| - 1][r.value + 1..] + [s[|s| - 1]];
        r
      else r
  }

  /** The name up to its last dot, or the whole name when it has none. */
  function Stem(name: string): (stem: string)
    ensures '.' !in name ==> stem == name
    ensures '.' in name ==> exists ext :: '.' !in ext && name == stem + "." + ext
  {
    match LastIndexOf(name, '.')
    case None => name
    case Some(i) =>
      assert name == name[..i] + "." + name[i + 1..];
      name[..i]
  }

  /** The stem is what comes before the last dot: splitting a name at any
      dot after which no dot follows recovers the part in front. */
  lemma {:induction false} StemOfSplit(stem: string, ext: string)
    requires '.' !in ext
    ensures Stem(stem + "." + ext) == stem
  {
    var name := stem + "." + ext;
    assert name[|stem|] == '.';
    assert name[|stem| + 1..] == ext;
    assert name[..|stem|] == stem;
  }

  /** The name the export is downloaded under. */
  function DownloadName(name: string): (r: string)
    ensures |r| >= 14 && r[|r| - 14..] == "_extracted.txt"
    ensures r[..|r| - 14] == Stem(name)
  {
    Stem(name) + "_extracted.txt"
  }

  // ========================================================= page choice

  /** The page shown: the slider's value counted from zero when there is
      more than one page, otherwise the first page. */
  function PageIndex(pageCount: nat, slider: int): (i: int)
    ensures pageCount <= 1 ==> i == 0
    ensures pageCount > 1 && 1 <= slider <= pageCount ==> 0 <= i < pageCount
  {
    if pageCount > 1 then slider - 1 else 0
  }

  /** With the slider inside its range the index names a page of the document. */
  lemma PageIndexInRange(pageCount: nat, slider: int)
    requires pageCount >= 1
    requires pageCount > 1 ==> 1 <= slider <= pageCount
    ensures 0 <= PageIndex(pageCount, slider) < pageCount
  {
  }

  // =========================================================== text panel

  /** What is shown for the chosen page's text. */
  datatype Panel = ShowText(text: string) | NoTextWarning | ExtractionError

  /** A missing text reads as empty; the text is shown if anything but
      whitespace is left after stripping it, else the warning; an exception
      shows an error instead. */
  function TextPanel(e: Extraction): Panel {
    if e.Raised? then ExtractionError
    else
      var t := if e.Text? then e.text else "";
      if Strip(t) != "" then ShowText(t) else NoTextWarning
  }

  /** The error is shown exactly when extraction raised; the warning
      exactly when the page has no text or only whitespace; otherwise the
      text is shown as extracted. */
  lemma TextPanelWarning(e: Extraction)
    ensures TextPanel(e) == ExtractionError <==> e.Raised?
    ensures TextPanel(e) == NoTextWarning <==> e.NoText? || (e.Text? && AllSpace(e.text))
    ensures e.Text? && !AllSpace(e.text) ==> TextPanel(e) == ShowText(e.text)
  {
    assert AllSpace("");
  }
}

/** The PyMuPDF viewer's export: a page whose text cannot be extracted
    contributes its header and no text, and the loop goes on. */
module FitzViewer {
  import opened Wrappers
  import opened Strings
  import opened Viewer

  /** The page's text, with an exception or a missing text read as empty. */
  function PageText(e: Extraction): string {
    match e
    case Text(t) => t
    case NoText => ""
    case Raised => ""
  }

  function PageTexts(pages: seq<Extraction>): seq<string> {
    seq(|pages|, i requires 0 <= i < |pages| => PageText(pages[i]))
  }

  /** The export loop over all pages. */
  method ExportAll(pages: seq<Extraction>) returns (allText: string)
    ensures allText == Export(PageTexts(pages))
  {
    var parts: seq<string> := [];
    for i := 0 to |pages|
      invariant parts == Sections(PageTexts(pages[..i]))
    {
      assert Sections(PageTexts(pages[..i + 1])) ==
        Sections(PageTexts(pages[..i])) + [Section(i + 1, PageText(pages[i]))];
      parts := parts + [Section(i + 1, PageText(pages[i]))];
    }
    assert pages[..|pages|] == pages;
    allText := Join(parts, "");
  }

  /** There is a download exactly when the document has pages, whatever
      their extraction gave. */
  lemma DownloadIffPages(pages: seq<Extraction>)
    ensures DownloadOffered(Some(Export(PageTexts(pages)))) <==> |pages| > 0
  {
    ExportEmptyIff(PageTexts(pages));
  }

  /** A page that raised still contributes its header. */
  lemma FailedPageKeepsHeader(pages: seq<Extraction>, i: nat)
    requires i < |pages| && pages[i].Raised?
    ensures Contains(Export(PageTexts(pages)), PageHeader(i + 1))
  {
    ExportHasPage(PageTexts(pages), i);
    assert PageHeader(i + 1) + PageTexts(pages)[i] == PageHeader(i + 1);
  }
}

/** The pypdf viewer's export: the loop has no exception handler, so a page
    whose extraction raises ends the run and no export is stored. */
module PypdfViewer {
  import opened Wrappers
  import opened Strings
  import opened Viewer
  import FitzViewer

  /** The text of a page that did not raise, a missing text read as empty. */
  function PageText(e: Extraction): string
    requires !e.Raised?
  {
    if e.Text? then e.text else ""
  }

  predicate NoneRaised(pages: seq<Extraction>) {
    forall i | 0 <= i < |pages| :: !pages[i].Raised?
  }

  function PageTexts(pages: seq<Extraction>): seq<string>
    requires NoneRaised(pages)
  {
    seq(|pages|, i requires 0 <= i < |pages| => PageText(pages[i]))
  }

  /** The export loop over all pages: the export when no page raises,
      nothing otherwise. */
  method ExportAll(pages: seq<Extraction>) returns (allText: Option<string>)
    ensures NoneRaised(pages) ==> allText == Some(Export(PageTexts(pages)))
    ensures !NoneRaised(pages) ==> allText == None
  {
    var parts: seq<string> := [];
    for i := 0 to |pages|
      invariant NoneRaised(pages[..i])
      invariant parts == Sections(PageTexts(pages[..i]))
    {
      if pages[i].Raised? {
        assert !NoneRaised(pages) by {
          assert !pages[i].Raised? || !NoneRaised(pages);
        }
        return None;
      }
      assert NoneRaised(pages[..i + 1]) by {
        var done := pages[..i + 1];
        forall k | 0 <= k < |done| ensures !done[k].Raised? {
          if k < i {
            assert done[k] == pages[..i][k];
          }
        }
      }
      assert Sections(PageTexts(pages[..i + 1])) ==
        Sections(PageTexts(pages[..i])) + [Section(i + 1, PageText(pages[i]))];
      parts := parts + [Section(i + 1, PageText(pages[i]))];
    }
    assert pages[..|pages|] == pages;
    allText := Some(Join(parts, ""));
  }

  /** With no page raising, both viewers export the same text. */
  lemma AgreesWithFitz(pages: seq<Extraction>)
    requires NoneRaised(pages)
    ensures PageTexts(pages) == FitzViewer.PageTexts(pages)
  {
  }

  /** With no page raising, there is a download exactly when the document
      has pages. */
  lemma DownloadIffPages(pages: seq<Extraction>)
    requires NoneRaised(pages)
    ensures DownloadOffered(Some(Export(PageTexts(pages)))) <==> |pages| > 0
  {
    ExportEmptyIff(PageTexts(pages));
  }
}
