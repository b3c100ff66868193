/**
 * pdf/mass_reader.py: for every DOI line of `docs/in.txt`, run the
 * downloader, then write the text of `docs/{safe}.pdf` to
 * `docs/{safe}.txt`, each page's UTF-8 text followed by a form feed.
 *
 * The downloader run is not modelled: `pdfs` describes the PDF files as
 * `os.path.isfile` and PyMuPDF find them, each by its pages' UTF-8 texts.
 */
module MassReader {
  import opened Text
  import opened Paths

  newtype byte = x: int | 0 <= x < 256

  /** The page delimiter, `bytes((12,))`. */
  const FormFeed: byte := 12

  /** A PDF file as PyMuPDF sees it. */
  datatype Pdf =
    /** `pymupdf.open` raises, before the text file is opened */
    | Unreadable
    /** the UTF-8 encoding of each page's `get_text()`, in page order */
    | Readable(pages: seq<seq<byte>>)

  /** The text file's bytes: every page followed by one form feed, the last page included. */
  function PagesText(pages: seq<seq<byte>>): seq<byte> {
    if pages == [] then [] else pages[0] + [FormFeed] + PagesText(pages[1..])
  }

  lemma {:induction false} PagesTextSnoc(pages: seq<seq<byte>>, page: seq<byte>)
    ensures PagesText(pages + [page]) == PagesText(pages) + page + [FormFeed]
  {
    if pages == [] {
      assert [page][1..] == [];
    } else {
      assert (pages + [page])[1..] == pages[1..] + [page];
      PagesTextSnoc(pages[1..], page);
    }
  }

  /** There is one form feed per page when no page text holds one itself. */
  lemma {:induction false} PagesTextFormFeeds(pages: seq<seq<byte>>)
    requires forall i :: 0 <= i < |pages| ==> FormFeed !in pages[i]
    ensures multiset(PagesText(pages))[FormFeed] == |pages|
  {
    if pages != [] {
      PagesTextFormFeeds(pages[1..]);
      assert multiset(pages[0])[FormFeed] == 0;
      assert multiset(pages[0] + [FormFeed] + PagesText(pages[1..])) ==
        multiset(pages[0]) + multiset{FormFeed} + multiset(PagesText(pages[1..]));
    }
  }

  /** The position of the first form feed of `b`, or `|b|` when it has none. */
  function FirstFormFeed(b: seq<byte>): (n: nat)
    ensures n <= |b| && FormFeed !in b[..n]
    ensures n < |b| ==> b[n] == FormFeed
  {
    if b == [] || b[0] == FormFeed then 0
    else
      var n := 1 + FirstFormFeed(b[1..]);
      assert b[..n] == [b[0]] + b[1..][..n - 1];
      n
  }

  /** The pages of a text file, read back at its form feeds; a trailing unterminated part is a last page. */
  function SplitPages(b: seq<byte>): seq<seq<byte>>
    decreases |b|
  {
    if b == [] then []
    else
      var n := FirstFormFeed(b);
      if n == |b| then [b] else [b[..n]] + SplitPages(b[n + 1..])
  }

  /** Reading the text file back at its form feeds gives the pages, when no page text holds a form feed. */
  lemma {:induction false} SplitPagesText(pages: seq<seq<byte>>)
    requires forall i :: 0 <= i < |pages| ==> FormFeed !in pages[i]
    ensures SplitPages(PagesText(pages)) == pages
  {
    if pages != [] {
      var b := PagesText(pages);
      var p := pages[0];
      FirstFormFeedAfter(p, PagesText(pages[1..]));
      assert b[..|p|] == p && b[|p| + 1..] == PagesText(pages[1..]);
      SplitPagesText(pages[1..]);
    }
  }

  lemma FirstFormFeedAfter(p: seq<byte>, rest: seq<byte>)
    requires FormFeed !in p
    ensures FirstFormFeed(p + [FormFeed] + rest) == |p|
  {
    var b := p + [FormFeed] + rest;
    assert b[..|p|] == p;
    FirstFormFeedAt(b, |p|);
  }

  /** A form feed at `k` with none before it is the first one. */
  lemma {:induction false} FirstFormFeedAt(b: seq<byte>, k: nat)
    requires k < |b| && b[k] == FormFeed && FormFeed !in b[..k]
    ensures FirstFormFeed(b) == k
  {
    if k > 0 {
      assert b[0] == b[..k][0];
      assert b[1..][..k - 1] == b[..k][1..];
      FirstFormFeedAt(b[1..], k - 1);
    }
  }

  /** The files the script writes, by path. */
  class Disk {
    var files: map<string, seq<byte>>

    constructor (existing: map<string, seq<byte>>)
      ensures files == existing
    {
      files := existing;
    }

    /** `open(path, "wb")`: the file exists and is empty. */
    method Create(path: string)
      modifies this
      ensures files == old(files)[path := []]
    {
      files := files[path := []];
    }

    /** `out_file.write(bytes)` */
    method Append(path: string, bytes: seq<byte>)
      requires path in files
      modifies this
      ensures files == old(files)[path := old(files)[path] + bytes]
    {
      files := files[path := files[path] + bytes];
    }
  }

  lemma PageStep(pages: seq<seq<byte>>, k: nat)
    requires k < |pages|
    ensures PagesText(pages[..k + 1]) == PagesText(pages[..k]) + pages[k] + [FormFeed]
  {
    assert pages[..k + 1] == pages[..k] + [pages[k]];
    PagesTextSnoc(pages[..k], pages[k]);
  }

  /** The page loop: the text file is created and receives each page and a form feed, in order. */
  method WritePages(disk: Disk, txtPath: string, pages: seq<seq<byte>>)
    modifies disk
    ensures disk.files == old(disk.files)[txtPath := PagesText(pages)]
  {
    disk.Create(txtPath);
    for k := 0 to |pages|
      invariant disk.files == old(disk.files)[txtPath := PagesText(pages[..k])]
    {
      disk.Append(txtPath, pages[k]);
      disk.Append(txtPath, [FormFeed]);
      PageStep(pages, k);
    }
    assert pages[..|pages|] == pages;
  }

  /** The DOIs the script acts on: the input lines, stripped, without the blank ones, in order. */
  function Dois(lines: seq<string>): (dois: seq<string>)
    ensures |dois| <= |lines|
  {
    if lines == [] then []
    else
      var doi := Strip(Python, lines[|lines| - 1]);
      Dois(lines[..|lines| - 1]) + (if doi == "" then [] else [doi])
  }

  /** Every DOI is a stripped line and not empty, and every line that is not blank gives one. */
  lemma {:induction false} DoisSpec(lines: seq<string>)
    ensures forall d <- Dois(lines) :: d != "" && exists i :: 0 <= i < |lines| && d == Strip(Python, lines[i])
    ensures forall i :: 0 <= i < |lines| && !AllSpace(Python, lines[i]) ==> Strip(Python, lines[i]) in Dois(lines)
  {
    if lines != [] {
      var init := lines[..|lines| - 1];
      DoisSpec(init);
      forall d <- Dois(lines) ensures d != "" && exists i :: 0 <= i < |lines| && d == Strip(Python, lines[i]) {
        if d in Dois(init) {
          var i :| 0 <= i < |init| && d == Strip(Python, init[i]);
          assert lines[i] == init[i];
        }
      }
      forall i | 0 <= i < |lines| && !AllSpace(Python, lines[i]) ensures Strip(Python, lines[i]) in Dois(lines) {
        StripEmpty(Python, lines[i]);
        if i < |init| {
          assert init[i] == lines[i];
        }
      }
    }
  }

  /** `docs/{safe}.pdf` */
  function PdfPath(doi: string): string {
    SanitizeSafe(doi);
    assert ".pdf"[..1] == ['.'];
    DocsPath(SanitizeFilename(doi), ".pdf")
  }

  /** `docs/{safe}.txt` */
  function TxtPath(doi: string): string {
    SanitizeSafe(doi);
    assert ".txt"[..1] == ['.'];
    DocsPath(SanitizeFilename(doi), ".txt")
  }

  /** The two paths of a DOI are the docs paths of the same sanitised name. */
  lemma PathsOfDoi(doi: string)
    ensures PdfPath(doi) == DocsDir + "/" + SanitizeFilename(doi) + ".pdf"
    ensures TxtPath(doi) == DocsDir + "/" + SanitizeFilename(doi) + ".txt"
  {
  }

  /** DOIs with the same text file have the same PDF file. */
  lemma SameTxtSamePdf(d: string, e: string)
    requires TxtPath(d) == TxtPath(e)
    ensures PdfPath(d) == PdfPath(e)
  {
    SanitizeSafe(d);
    SanitizeSafe(e);
    assert ".txt"[..1] == ['.'];
    DocsPathInjective(SanitizeFilename(d), SanitizeFilename(e), ".txt");
  }

  predicate Readable?(pdfs: map<string, Pdf>, path: string) {
    path in pdfs && pdfs[path].Readable?
  }

  /** The files after the script has handled `dois` in order. */
  function Extracted(files: map<string, seq<byte>>, dois: seq<string>, pdfs: map<string, Pdf>): map<string, seq<byte>> {
    if dois == [] then files
    else
      var d := dois[|dois| - 1];
      var earlier := Extracted(files, dois[..|dois| - 1], pdfs);
      if Readable?(pdfs, PdfPath(d)) then earlier[TxtPath(d) := PagesText(pdfs[PdfPath(d)].pages)] else earlier
  }

  /** A text file written for one of `dois`, whose PDF is there and readable. */
  predicate Produced(dois: seq<string>, pdfs: map<string, Pdf>, p: string) {
    exists d <- dois :: TxtPath(d) == p && Readable?(pdfs, PdfPath(d))
  }

  /**
   * The script adds exactly the text files of the DOIs whose PDF is there
   * and readable; no file is written for a missing or unreadable PDF, and
   * every other file is left as it was.
   */
  lemma {:induction false} ExtractedFiles(files: map<string, seq<byte>>, dois: seq<string>, pdfs: map<string, Pdf>)
    ensures forall p :: p in Extracted(files, dois, pdfs) <==> p in files || Produced(dois, pdfs, p)
    ensures forall p :: p in files && !Produced(dois, pdfs, p) ==> Extracted(files, dois, pdfs)[p] == files[p]
  {
    if dois != [] {
      var init := dois[..|dois| - 1];
      var d := dois[|dois| - 1];
      ExtractedFiles(files, init, pdfs);
      ProducedSnoc(dois, pdfs);
    }
  }

  lemma ProducedSnoc(dois: seq<string>, pdfs: map<string, Pdf>)
    requires dois != []
    ensures var d := dois[|dois| - 1];
      forall p :: Produced(dois, pdfs, p) <==>
        Produced(dois[..|dois| - 1], pdfs, p) || (TxtPath(d) == p && Readable?(pdfs, PdfPath(d)))
  {
    var init, d := dois[..|dois| - 1], dois[|dois| - 1];
    assert dois == init + [d];
    forall p ensures Produced(dois, pdfs, p) <==> Produced(init, pdfs, p) || (TxtPath(d) == p && Readable?(pdfs, PdfPath(d))) {
      if Produced(dois, pdfs, p) {
        var e :| e in dois && TxtPath(e) == p && Readable?(pdfs, PdfPath(e));
        if e != d { assert e in init; }
      }
      if Produced(init, pdfs, p) {
        var e :| e in init && TxtPath(e) == p && Readable?(pdfs, PdfPath(e));
        assert e in dois;
      }
    }
  }

  /** Each produced text file holds the pages of its DOI's PDF, a form feed after each. */
  lemma {:induction false} ExtractedContents(files: map<string, seq<byte>>, dois: seq<string>, pdfs: map<string, Pdf>)
    ensures forall d <- dois :: Readable?(pdfs, PdfPath(d)) ==>
      TxtPath(d) in Extracted(files, dois, pdfs) && Extracted(files, dois, pdfs)[TxtPath(d)] == PagesText(pdfs[PdfPath(d)].pages)
  {
    if dois != [] {
      var init := dois[..|dois| - 1];
      var last := dois[|dois| - 1];
      ExtractedContents(files, init, pdfs);
      forall d <- dois | Readable?(pdfs, PdfPath(d))
        ensures TxtPath(d) in Extracted(files, dois, pdfs)
        ensures Extracted(files, dois, pdfs)[TxtPath(d)] == PagesText(pdfs[PdfPath(d)].pages)
      {
        if TxtPath(d) == TxtPath(last) {
          SameTxtSamePdf(d, last);
        } else {
          assert d in init;
        }
      }
    }
  }

  /** One line of the main loop, from the state before it to the state after it. */
  lemma LineStep(files: map<string, seq<byte>>, lines: seq<string>, i: nat, pdfs: map<string, Pdf>,
                 downloads: seq<string>, current: map<string, seq<byte>>,
                 downloads': seq<string>, current': map<string, seq<byte>>)
    requires i < |lines|
    requires downloads == Dois(lines[..i]) && current == Extracted(files, downloads, pdfs)
    requires var doi := Strip(Python, lines[i]);
      if doi == "" then downloads' == downloads && current' == current
      else (downloads' == downloads + [doi] &&
        current' == if Readable?(pdfs, PdfPath(doi)) then current[TxtPath(doi) := PagesText(pdfs[PdfPath(doi)].pages)] else current)
    ensures downloads' == Dois(lines[..i + 1]) && current' == Extracted(files, downloads', pdfs)
  {
    assert lines[..i + 1][..i] == lines[..i];
    if Strip(Python, lines[i]) != "" {
      assert downloads'[..|downloads'| - 1] == downloads;
    }
  }

  /**
   * `main`: for each line of the input file, strip it and skip it when
   * blank; otherwise run the downloader on the DOI (`downloads` lists those
   * runs) and, when the PDF is there and readable, write its text file.
   */
  method ReadAll(disk: Disk, lines: seq<string>, pdfs: map<string, Pdf>) returns (downloads: seq<string>)
    modifies disk
    ensures downloads == Dois(lines)
    ensures disk.files == Extracted(old(disk.files), Dois(lines), pdfs)
  {
    downloads := [];
    for i := 0 to |lines|
      invariant downloads == Dois(lines[..i])
      invariant disk.files == Extracted(old(disk.files), downloads, pdfs)
    {
      ghost var downloadsBefore, filesBefore := downloads, disk.files;
      var doi := Strip(Python, lines[i]);
      if doi != "" {
        downloads := downloads + [doi];
        var safe := SanitizeFilename(doi);
        var pdfPath := PdfPath(doi);
        var txtPath := TxtPath(doi);
        if pdfPath in pdfs {
          match pdfs[pdfPath]
          case Unreadable =>
          case Readable(pages) =>
            WritePages(disk, txtPath, pages);
        }
      }
      LineStep(old(disk.files), lines, i, pdfs, downloadsBefore, filesBefore, downloads, disk.files);
    }
    assert lines[..|lines|] == lines;
  }
}
