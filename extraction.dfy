/**
 * The two document extractors: a PDF is chunked page by page, a text file
 * as a whole, and every chunk is paired with the document's file name.
 *
 * The page texts a PDF library would extract and the text a UTF-8 decoder
 * would produce are inputs here; a page without text is the empty string.
 */
module Extraction {
  import opened Chunker

  /** One corpus entry: the document it came from and one chunk of its text. */
  datatype Entry = Entry(title: string, text: string)

  datatype Option<T> = None | Some(value: T)

  /** Every chunk of `chunks`, in order, paired with `title`. */
  function Tag(title: string, chunks: seq<string>): (r: seq<Entry>)
    ensures |r| == |chunks| && AllTitled(r, title)
    decreases |chunks|
  {
    if |chunks| == 0 then [] else [Entry(title, chunks[0])] + Tag(title, chunks[1..])
  }

  /** The texts of a sequence of entries, in order. */
  function Texts(es: seq<Entry>): seq<string>
    decreases |es|
  {
    if |es| == 0 then [] else [es[0].text] + Texts(es[1..])
  }

  /** Every entry of `es` carries the title `title`. */
  predicate AllTitled(es: seq<Entry>, title: string) {
    forall k :: 0 <= k < |es| ==> es[k].title == title
  }

  /** No entry of `es` holds more than `m` characters of text. */
  predicate ShortEntries(es: seq<Entry>, m: nat) {
    forall k :: 0 <= k < |es| ==> |es[k].text| <= m
  }

  /** Pairing chunks with a title keeps them all, in order, under that title. */
  lemma {:induction false} TagTexts(title: string, chunks: seq<string>)
    ensures |Tag(title, chunks)| == |chunks|
    ensures Texts(Tag(title, chunks)) == chunks
    ensures AllTitled(Tag(title, chunks), title)
    ensures forall k :: 0 <= k < |chunks| ==> Tag(title, chunks)[k] == Entry(title, chunks[k])
    decreases |chunks|
  {
    if |chunks| > 0 {
      TagTexts(title, chunks[1..]);
      var es := Tag(title, chunks);
      assert es == [Entry(title, chunks[0])] + Tag(title, chunks[1..]);
      forall k | 0 < k < |chunks| ensures es[k] == Entry(title, chunks[k]) {
        assert es[k] == Tag(title, chunks[1..])[k - 1];
      }
    }
  }

  /** Entries and their texts determine each other once the title is fixed. */
  lemma {:induction false} TagOfTexts(title: string, es: seq<Entry>)
    requires AllTitled(es, title)
    ensures Tag(title, Texts(es)) == es
    decreases |es|
  {
    if |es| > 0 {
      assert AllTitled(es[1..], title) by {
        forall k | 0 <= k < |es[1..]| ensures es[1..][k].title == title {
          assert es[1..][k] == es[k + 1];
        }
      }
      TagOfTexts(title, es[1..]);
      var ts := Texts(es);
      assert ts[0] == es[0].text && ts[1..] == Texts(es[1..]);
      assert es == [Entry(title, es[0].text)] + es[1..];
    }
  }

  lemma {:induction false} TagAppend(title: string, a: seq<string>, b: seq<string>)
    ensures Tag(title, a + b) == Tag(title, a) + Tag(title, b)
    decreases |a|
  {
    if |a| == 0 {
      assert a + b == b;
    } else {
      assert (a + b)[0] == a[0] && (a + b)[1..] == a[1..] + b;
      TagAppend(title, a[1..], b);
    }
  }

  lemma ShortTag(title: string, chunks: seq<string>, m: nat)
    requires Bounded(chunks, m)
    ensures ShortEntries(Tag(title, chunks), m)
  {
    TagTexts(title, chunks);
  }

  lemma ShortAppend(a: seq<Entry>, b: seq<Entry>, m: nat)
    requires ShortEntries(a, m) && ShortEntries(b, m)
    ensures ShortEntries(a + b, m)
  {
    forall k | 0 <= k < |a + b| ensures |(a + b)[k].text| <= m {
      if k >= |a| { assert (a + b)[k] == b[k - |a|]; }
    }
  }

  // ---------------------------------------------------------------------
  // `extract_sentences_from_pdf`
  // ---------------------------------------------------------------------

  /** The chunks of one page: none when the page has no text. */
  function PageChunks(page: string): seq<string> {
    if |page| == 0 then [] else Chunked(page, MaxLen)
  }

  /** The chunks of all pages, page after page. */
  function PdfChunks(pages: seq<string>): (r: seq<string>)
    ensures Bounded(r, MaxLen)
    decreases |pages|
  {
    if |pages| == 0 then []
    else
      var n := |pages| - 1;
      BoundedAppend(PdfChunks(pages[..n]), PageChunks(pages[n]), MaxLen);
      PdfChunks(pages[..n]) + PageChunks(pages[n])
  }

  /** The chunks of the pages, each page chunked on its own (`Concat` over pages). */
  function ChunksPerPage(pages: seq<string>): seq<string>
    decreases |pages|
  {
    if |pages| == 0 then [] else Chunked(pages[0], MaxLen) + ChunksPerPage(pages[1..])
  }

  /** The pairs the PDF extractor returns for a PDF named `name` with these page texts. */
  method ExtractFromPdf(name: string, pages: seq<string>) returns (sentences: seq<Entry>)
    ensures sentences == Tag(name, PdfChunks(pages))
  {
    sentences := [];
    for i := 0 to |pages|
      invariant sentences == Tag(name, PdfChunks(pages[..i]))
    {
      var text := pages[i];
      assert pages[..i + 1][..i] == pages[..i] && pages[..i + 1][i] == text;
      assert PdfChunks(pages[..i + 1]) == PdfChunks(pages[..i]) + PageChunks(text);
      if |text| > 0 {
        var chunks := SplitIntoSentences(text, MaxLen);
        TagAppend(name, PdfChunks(pages[..i]), chunks);
        sentences := sentences + Tag(name, chunks);
      } else {
        assert PdfChunks(pages[..i]) + [] == PdfChunks(pages[..i]);
      }
    }
    assert pages[..|pages|] == pages;
  }

  /**
   * Skipping pages without text changes nothing: the PDF's chunks are each
   * page's chunks, in page order.
   */
  lemma {:induction false} PdfChunksPerPage(pages: seq<string>)
    ensures PdfChunks(pages) == ChunksPerPage(pages)
    decreases |pages|
  {
    if |pages| > 0 {
      var n := |pages| - 1;
      PdfChunksPerPage(pages[..n]);
      ChunksPerPageSnoc(pages[..n], pages[n]);
      assert pages[..n] + [pages[n]] == pages;
      if |pages[n]| == 0 {
        assert AllSpace(pages[n]);
        BlankText(pages[n], MaxLen);
      }
    }
  }

  lemma {:induction false} ChunksPerPageSnoc(pages: seq<string>, page: string)
    ensures ChunksPerPage(pages + [page]) == ChunksPerPage(pages) + Chunked(page, MaxLen)
    decreases |pages|
  {
    if |pages| == 0 {
      assert pages + [page] == [page];
      assert ChunksPerPage([page]) == Chunked(page, MaxLen) + ChunksPerPage([]);
    } else {
      assert (pages + [page])[0] == pages[0] && (pages + [page])[1..] == pages[1..] + [page];
      ChunksPerPageSnoc(pages[1..], page);
    }
  }

  /** A PDF yields only entries titled with its name, each at most `MaxLen` long. */
  lemma PdfEntries(name: string, pages: seq<string>)
    ensures AllTitled(Tag(name, PdfChunks(pages)), name)
    ensures Texts(Tag(name, PdfChunks(pages))) == ChunksPerPage(pages)
    ensures ShortEntries(Tag(name, PdfChunks(pages)), MaxLen)
  {
    TagTexts(name, PdfChunks(pages));
    PdfChunksPerPage(pages);
    ShortTag(name, PdfChunks(pages), MaxLen);
  }

  // ---------------------------------------------------------------------
  // `extract_sentences_from_txt`
  // ---------------------------------------------------------------------

  /** The pairs the text extractor returns for a file named `name` whose decoded text is `text`. */
  method ExtractFromTxt(name: string, text: string) returns (sentences: seq<Entry>)
    ensures sentences == Tag(name, Chunked(text, MaxLen))
  {
    var chunks := SplitIntoSentences(text, MaxLen);
    sentences := Tag(name, chunks);
  }

  /** A text file yields its chunks, in order, all titled with its name and at most `MaxLen` long. */
  lemma TxtEntries(name: string, text: string)
    ensures AllTitled(Tag(name, Chunked(text, MaxLen)), name)
    ensures Texts(Tag(name, Chunked(text, MaxLen))) == Chunked(text, MaxLen)
    ensures ShortEntries(Tag(name, Chunked(text, MaxLen)), MaxLen)
  {
    TagTexts(name, Chunked(text, MaxLen));
    ChunkBound(text, MaxLen);
    ShortTag(name, Chunked(text, MaxLen), MaxLen);
  }

  // ---------------------------------------------------------------------
  // Dispatch on the upload's type
  // ---------------------------------------------------------------------

  const PdfMimeType: string := "application/pdf"

  /**
   * An uploaded file. `pageTexts` is what the PDF library extracts from it,
   * `None` when the library fails on it; `decodedText` is its content
   * decoded as UTF-8, `None` when it is not valid UTF-8.
   */
  datatype UploadedFile = UploadedFile(
    name: string,
    mimeType: string,
    pageTexts: Option<seq<string>>,
    decodedText: Option<string>)

  /** What the upload loop extracts from one file: `None` when extraction fails. */
  function FileEntries(f: UploadedFile): (r: Option<seq<Entry>>)
    ensures r.Some? ==> AllTitled(r.value, f.name)
    ensures r.None? <==> (if f.mimeType == PdfMimeType then f.pageTexts.None? else f.decodedText.None?)
  {
    if f.mimeType == PdfMimeType then
      match f.pageTexts
      case Some(pages) => Some(Tag(f.name, PdfChunks(pages)))
      case None => None
    else
      match f.decodedText
      case Some(text) => Some(Tag(f.name, Chunked(text, MaxLen)))
      case None => None
  }

  /** The file extracts without error. */
  predicate Extracts(f: UploadedFile) {
    FileEntries(f).Some?
  }

  /** The number of files, from the front, that extract without error. */
  function ExtractedPrefix(files: seq<UploadedFile>): (n: nat)
    ensures n <= |files|
    ensures n < |files| ==> !Extracts(files[n])
    ensures forall i :: 0 <= i < n ==> Extracts(files[i])
    decreases |files|
  {
    if |files| == 0 || !Extracts(files[0]) then 0 else 1 + ExtractedPrefix(files[1..])
  }

  /** The entries of a file that extracts; nothing for one that fails. */
  function EntriesOrNone(f: UploadedFile): seq<Entry> {
    match FileEntries(f)
    case Some(es) => es
    case None => []
  }

  /** The entries of the files that extract, file after file in upload order. */
  function BatchEntries(files: seq<UploadedFile>): seq<Entry>
    decreases |files|
  {
    if |files| == 0 then [] else BatchEntries(files[..|files| - 1]) + EntriesOrNone(files[|files| - 1])
  }

  /**
   * A file of the PDF type is chunked page by page, any other file as one
   * decoded text; either way its entries are short and carry its name.
   */
  lemma FileEntriesShape(f: UploadedFile)
    requires Extracts(f)
    ensures AllTitled(FileEntries(f).value, f.name)
    ensures ShortEntries(FileEntries(f).value, MaxLen)
    ensures f.mimeType == PdfMimeType ==> Texts(FileEntries(f).value) == ChunksPerPage(f.pageTexts.value)
    ensures f.mimeType != PdfMimeType ==> Texts(FileEntries(f).value) == Chunked(f.decodedText.value, MaxLen)
  {
    if f.mimeType == PdfMimeType {
      PdfEntries(f.name, f.pageTexts.value);
    } else {
      TxtEntries(f.name, f.decodedText.value);
    }
  }

  /** The dispatch of the upload loop: a PDF goes to the PDF extractor, anything else to the text extractor. */
  method ExtractFile(f: UploadedFile) returns (r: Option<seq<Entry>>)
    ensures r == FileEntries(f)
  {
    if f.mimeType == PdfMimeType {
      match f.pageTexts
      case None => r := None;
      case Some(pages) =>
        var sentences := ExtractFromPdf(f.name, pages);
        r := Some(sentences);
    } else {
      match f.decodedText
      case None => r := None;
      case Some(text) =>
        var sentences := ExtractFromTxt(f.name, text);
        r := Some(sentences);
    }
  }

  /** Extending the batch by one more file appends that file's entries. */
  lemma BatchEntriesSnoc(files: seq<UploadedFile>, i: nat)
    requires i < |files| && Extracts(files[i])
    ensures BatchEntries(files[..i + 1]) == BatchEntries(files[..i]) + FileEntries(files[i]).value
  {
    assert files[..i + 1][..i] == files[..i];
  }

  lemma {:induction false} BatchEntriesShort(files: seq<UploadedFile>)
    ensures ShortEntries(BatchEntries(files), MaxLen)
    decreases |files|
  {
    if |files| > 0 {
      var n := |files| - 1;
      BatchEntriesShort(files[..n]);
      if Extracts(files[n]) {
        FileEntriesShape(files[n]);
      }
      ShortAppend(BatchEntries(files[..n]), EntriesOrNone(files[n]), MaxLen);
    }
  }
}
