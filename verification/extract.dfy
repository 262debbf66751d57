/** `extract_text_from_file` of `ai_utils.py`: pick a reader from the
    path's extension and turn any failure into empty text. */
module Extract {
  import opened Wrappers
  import opened PyStr
  import opened Uploads

  /** Which branch of the `if`/`elif` chain a path takes. */
  datatype Kind = Pdf | Image | Text | Unsupported

  /** The branch for `path`, decided on `path.lower()` and tested in the
      order PDF, image, text. */
  function Dispatch(path: string): Kind {
    var low := Lower(path);
    if EndsWith(low, ".pdf") then Pdf
    else if EndsWith(low, ".png") || EndsWith(low, ".jpg") || EndsWith(low, ".jpeg") then Image
    else if EndsWith(low, ".txt") then Text
    else Unsupported
  }

  /** The library calls behind each branch; `None` is an exception.
      `pdfPages` is PyMuPDF's `page.get_text()` for every page in order,
      `ocr` is Tesseract on the opened image, `readText` is
      `open(path, 'r').read()`. */
  datatype Readers = Readers(pdfPages: string -> Option<seq<string>>,
                             ocr: string -> Option<string>,
                             readText: string -> Option<string>)

  /** Sum of the lengths of `parts`. */
  function TotalLength(parts: seq<string>): nat {
    if parts == [] then 0 else |parts[0]| + TotalLength(parts[1..])
  }

  /** `"".join(parts)`. */
  function Concat(parts: seq<string>): (r: string)
    ensures |r| == TotalLength(parts)
  {
    if parts == [] then "" else parts[0] + Concat(parts[1..])
  }

  /** Where part `k` starts in the joined text. */
  function Offset(parts: seq<string>, k: int): nat
    requires 0 <= k <= |parts|
  {
    TotalLength(parts[..k])
  }

  /** Joining puts every part, whole and in order, right after the parts
      before it: no separator, nothing lost. */
  lemma {:induction false} ConcatPlacesParts(parts: seq<string>, k: int)
    requires 0 <= k < |parts|
    ensures Offset(parts, k) + |parts[k]| <= |Concat(parts)|
    ensures Concat(parts)[Offset(parts, k)..Offset(parts, k) + |parts[k]|] == parts[k]
    decreases k
  {
    var r := Concat(parts);
    if k == 0 {
      assert parts[..0] == [];
    } else {
      var tail := parts[1..];
      ConcatPlacesParts(tail, k - 1);
      assert parts[..k] == [parts[0]] + tail[..k - 1];
      assert parts[..k][1..] == tail[..k - 1];
      var o := Offset(tail, k - 1);
      assert r == parts[0] + Concat(tail);
      assert r[|parts[0]| + o..|parts[0]| + o + |parts[k]|] == Concat(tail)[o..o + |parts[k]|];
    }
  }

  /** The reader the branch uses succeeded on `path`. */
  predicate ReadSucceeds(path: string, io: Readers) {
    match Dispatch(path)
    case Pdf => io.pdfPages(path).Some?
    case Image => io.ocr(path).Some?
    case Text => io.readText(path).Some?
    case Unsupported => false
  }

  /** `extract_text_from_file(path)`. It never fails: text comes only from
      a recognised extension whose reader succeeded, and everything else
      is the empty string. */
  function ExtractText(path: string, io: Readers): (r: string)
    ensures r != "" ==> ReadSucceeds(path, io)
  {
    match Dispatch(path)
    case Pdf =>
      (match io.pdfPages(path)
       case Some(pages) => Concat(pages)
       case None => "")
    case Image => io.ocr(path).GetOr("")
    case Text => io.readText(path).GetOr("")
    case Unsupported => ""
  }

  /** A path with none of the extensions gives `""` whatever the readers
      would do. */
  lemma UnsupportedIsEmpty(path: string, io: Readers)
    requires Dispatch(path) == Unsupported
    ensures ExtractText(path, io) == ""
  {
  }

  /** A PDF gives its pages' texts joined in page order: zero pages give
      `""`, the length is the sum of the page lengths, and page `k` sits at
      its offset. */
  lemma PdfIsPagesJoined(path: string, io: Readers, pages: seq<string>)
    requires Dispatch(path) == Pdf && io.pdfPages(path) == Some(pages)
    ensures ExtractText(path, io) == Concat(pages)
    ensures pages == [] ==> ExtractText(path, io) == ""
    ensures |ExtractText(path, io)| == TotalLength(pages)
    ensures forall k :: 0 <= k < |pages| ==>
      Offset(pages, k) + |pages[k]| <= |ExtractText(path, io)|
      && ExtractText(path, io)[Offset(pages, k)..Offset(pages, k) + |pages[k]|] == pages[k]
  {
    forall k | 0 <= k < |pages|
      ensures Offset(pages, k) + |pages[k]| <= |Concat(pages)|
      ensures Concat(pages)[Offset(pages, k)..Offset(pages, k) + |pages[k]|] == pages[k]
    {
      ConcatPlacesParts(pages, k);
    }
  }

  /** A `.txt` file comes back verbatim, an image as its recognised text. */
  lemma TextAndImageVerbatim(path: string, io: Readers)
    ensures Dispatch(path) == Text && io.readText(path).Some? ==>
      ExtractText(path, io) == io.readText(path).value
    ensures Dispatch(path) == Image && io.ocr(path).Some? ==>
      ExtractText(path, io) == io.ocr(path).value
  {
  }

  /** Only the chosen branch's reader matters: two reader sets that agree
      on it give the same text. */
  lemma OnlyChosenReaderMatters(path: string, io1: Readers, io2: Readers)
    requires Dispatch(path) == Pdf ==> io1.pdfPages(path) == io2.pdfPages(path)
    requires Dispatch(path) == Image ==> io1.ocr(path) == io2.ocr(path)
    requires Dispatch(path) == Text ==> io1.readText(path) == io2.readText(path)
    ensures ExtractText(path, io1) == ExtractText(path, io2)
  {
  }

  /** A `.pdf` path that also looks like something else is still a PDF,
      and `.jpeg` is an image even though it ends like no other case. */
  lemma DispatchOrder(path: string)
    ensures EndsWith(Lower(path), ".pdf") ==> Dispatch(path) == Pdf
    ensures Dispatch(path) == Image <==>
      !EndsWith(Lower(path), ".pdf")
      && (EndsWith(Lower(path), ".png") || EndsWith(Lower(path), ".jpg") || EndsWith(Lower(path), ".jpeg"))
    ensures Dispatch(path) == Text <==>
      EndsWith(Lower(path), ".txt") && !EndsWith(Lower(path), ".pdf")
      && !EndsWith(Lower(path), ".png") && !EndsWith(Lower(path), ".jpg") && !EndsWith(Lower(path), ".jpeg")
  {
  }

  /** Dispatch ignores case. */
  lemma DispatchCaseInsensitive(path: string)
    ensures Dispatch(Lower(path)) == Dispatch(path)
  {
    LowerIdempotent(path);
  }

  lemma RecognisedSuffix(name: string, e: string)
    requires e in AllowedExtensions && EndsWith(Lower(name), "." + e)
    ensures Dispatch(name) != Unsupported
  {
    if e == "pdf" {
      assert "." + e == ".pdf";
    } else if e == "png" {
      assert "." + e == ".png";
    } else if e == "jpg" {
      assert "." + e == ".jpg";
    } else if e == "jpeg" {
      assert "." + e == ".jpeg";
    } else {
      assert "." + e == ".txt";
    }
  }

  /** The upload gate and the extractor agree: a name passes
      `allowed_file` exactly when the extractor has a reader for it. */
  lemma AllowedIffRecognised(name: string)
    ensures AllowedFile(name) <==> Dispatch(name) != Unsupported
  {
    AllowedFileIffSuffix(name);
    var low := Lower(name);
    if AllowedFile(name) {
      var e :| e in AllowedExtensions && EndsWith(low, "." + e);
      RecognisedSuffix(name, e);
    } else {
      assert !EndsWith(low, "." + "pdf") && !EndsWith(low, "." + "png") && !EndsWith(low, "." + "jpg");
      assert !EndsWith(low, "." + "jpeg") && !EndsWith(low, "." + "txt");
      assert "." + "pdf" == ".pdf" && "." + "png" == ".png" && "." + "jpg" == ".jpg";
      assert "." + "jpeg" == ".jpeg" && "." + "txt" == ".txt";
    }
  }
}
