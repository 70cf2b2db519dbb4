/** `ConvertPdfToImg`: render every page of a PDF into its own image file,
    `page_000.jpeg`, `page_001.jpeg`, ... in an output directory, stopping at
    the first page that cannot be rendered, created or encoded. The PDF
    library, the file system and the PNG encoder are oracles. */
module PdfConvertor {
  import opened Wrappers
  import Strings
  import Paths

  /** A rendered page image; its pixels are opaque to this code. */
  datatype Raster = Raster(pixels: seq<int>)

  /** An opened PDF: the outcome of `doc.Image(n)` for each page, so that
      `doc.NumPage()` is the number of outcomes. */
  datatype Document = Document(images: seq<Result<Raster>>) {
    function NumPage(): nat { |images| }
  }

  /** The collaborators: `fitz.New`, `os.Create` and `png.Encode`. */
  datatype Backend = Backend(
    open: string -> Result<Document>,
    create: string -> Outcome,
    encode: Raster -> Outcome)

  datatype ImageFormat = Png | Jpeg

  /** What a created file holds: an encoded image, or whatever a failed
      encoder left behind. */
  datatype Content = Encoded(format: ImageFormat, image: Raster) | Incomplete

  datatype PageFile = PageFile(path: string, content: Content)

  /** The image format a file extension announces. */
  function FormatOfExtension(ext: string): Option<ImageFormat> {
    if ext == ".jpeg" || ext == ".jpg" then Some(Jpeg)
    else if ext == ".png" then Some(Png)
    else None
  }

  /** `fmt.Sprintf("page_%03d.jpeg", n)`. */
  function PageFileName(n: nat): string {
    "page_" + Strings.ZeroPad(n, 3) + ".jpeg"
  }

  function PagePath(outPath: string, n: nat): string {
    Paths.Join(outPath, PageFileName(n))
  }

  /** Page numbers below 1000 give names of exactly three digits. */
  lemma PageFileNameShape(n: nat)
    ensures var name := PageFileName(n);
      name[..5] == "page_" && name[|name| - 5..] == ".jpeg" &&
      (n < 1000 <==> |name| == 13)
  {
    var name := PageFileName(n);
    assert name[..5] == "page_";
    assert name[|name| - 5..] == ".jpeg";
    if |name| == 13 {
      var d := Strings.Decimal(n);
      assert |d| <= 3;
      if n >= 1000 {
        DecimalLong(n);
      }
    }
  }

  lemma {:induction false} DecimalLong(n: nat)
    requires n >= 1000
    ensures |Strings.Decimal(n)| >= 4
  {
    assert n / 10 >= 100;
    if n / 10 >= 1000 {
      DecimalLong(n / 10);
    } else {
      assert Strings.Decimal(n / 10) == Strings.Decimal(n / 100) + [Strings.DigitChar(n / 10 % 10)];
      assert |Strings.Decimal(n / 100)| >= 2;
    }
  }

  /** Distinct pages get distinct file names, in the same directory too. */
  lemma PageFileNamesDistinct(outPath: string, n: nat, m: nat)
    requires n != m
    ensures PageFileName(n) != PageFileName(m)
    ensures PagePath(outPath, n) != PagePath(outPath, m)
  {
    if PagePath(outPath, n) == PagePath(outPath, m) || PageFileName(n) == PageFileName(m) {
      var a, b := PageFileName(n), PageFileName(m);
      var pa, pb := PagePath(outPath, n), PagePath(outPath, m);
      assert |pa| - |a| == |pb| - |b|;
      assert |a| == |b|;
      assert a == pa[|pa| - |a|..];
      assert b == pb[|pb| - |b|..];
      assert a == b;
      assert Strings.ZeroPad(n, 3) == a[5..|a| - 5];
      assert Strings.ZeroPad(m, 3) == b[5..|b| - 5];
      Strings.ZeroPadInjective(n, m, 3);
    }
  }

  /** Below 1000 pages, the lexical order of the page paths is the page
      order. */
  lemma PagePathsOrdered(outPath: string, n: nat, m: nat)
    requires n < m < 1000
    ensures Strings.Less(PagePath(outPath, n), PagePath(outPath, m))
  {
    Strings.ZeroPadOrder(n, m, ".jpeg", ".jpeg");
    assert PageFileName(n) == "page_" + (Strings.ZeroPad(n, 3) + ".jpeg");
    assert PageFileName(m) == "page_" + (Strings.ZeroPad(m, 3) + ".jpeg");
    Strings.LessPrefix("page_", Strings.ZeroPad(n, 3) + ".jpeg", Strings.ZeroPad(m, 3) + ".jpeg");
    Paths.JoinOrder(outPath, PageFileName(n), PageFileName(m));
  }

  /** From page 1000 on the two orders part: `page_1000.jpeg` sorts before
      `page_101.jpeg`. */
  lemma LexicalOrderPast1000(outPath: string)
    ensures Strings.Less(PagePath(outPath, 1000), PagePath(outPath, 101))
  {
    assert Strings.Decimal(10) == "10";
    assert Strings.Decimal(100) == "100";
    assert Strings.ZeroPad(1000, 3) == "1000";
    assert Strings.Decimal(101) == "101";
    assert PageFileName(1000) == "page_10" + "00.jpeg";
    assert PageFileName(101) == "page_10" + "1.jpeg";
    Strings.LessHead('0', '1', "0.jpeg", ".jpeg");
    assert "00.jpeg" == ['0'] + "0.jpeg" && "1.jpeg" == ['1'] + ".jpeg";
    Strings.LessPrefix("page_10", "00.jpeg", "1.jpeg");
    Paths.JoinOrder(outPath, PageFileName(1000), PageFileName(101));
  }

  /** Every page file is named `.jpeg`, whose announced format is JPEG. */
  lemma PagePathIsJpeg(outPath: string, n: nat)
    ensures Paths.Ext(PagePath(outPath, n)) == ".jpeg"
    ensures FormatOfExtension(Paths.Ext(PagePath(outPath, n))) == Some(Jpeg)
  {
    var prefix := Paths.JoinEndsWithName(outPath, PageFileName(n));
    var stem := prefix + "page_" + Strings.ZeroPad(n, 3);
    assert PagePath(outPath, n) == stem + "." + "jpeg";
    assert forall i :: 0 <= i < 4 ==> "jpeg"[i] != '.' && "jpeg"[i] != Paths.Separator;
    Paths.ExtOfEnding(stem, "jpeg");
  }

  /** The state of the page loop: the files written so far and the error, if
      any, that ended it. */
  datatype Progress = Progress(files: seq<PageFile>, failure: Option<string>)

  /** One iteration for page `n`: render, create the file, encode into it. */
  function Step(doc: Document, outPath: string, b: Backend, files: seq<PageFile>, n: nat): Progress
    requires n < doc.NumPage()
  {
    match doc.images[n]
    case Err(e) => Progress(files, Some(e))
    case Ok(img) =>
      var path := PagePath(outPath, n);
      match b.create(path)
      case Fail(e) => Progress(files, Some(e))
      case Pass =>
        match b.encode(img)
        case Fail(e) => Progress(files + [PageFile(path, Incomplete)], Some(e))
        case Pass => Progress(files + [PageFile(path, Encoded(Png, img))], None)
  }

  /** The loop after the first `k` pages; once an error occurs nothing more
      is attempted. */
  function RenderPages(doc: Document, outPath: string, b: Backend, k: nat): Progress
    requires k <= doc.NumPage()
  {
    if k == 0 then Progress([], None)
    else
      var p := RenderPages(doc, outPath, b, k - 1);
      if p.failure.Some? then p else Step(doc, outPath, b, p.files, k - 1)
  }

  datatype Conversion = Conversion(count: int, err: Option<string>, files: seq<PageFile>)

  /** What `ConvertPdfToImg(path, outPath)` returns, and the files it leaves. */
  function Convert(path: string, outPath: string, b: Backend): Conversion {
    match b.open(path)
    case Err(e) => Conversion(0, Some(e), [])
    case Ok(doc) =>
      var p := RenderPages(doc, outPath, b, doc.NumPage());
      if p.failure.Some? then Conversion(0, p.failure, p.files)
      else Conversion(doc.NumPage(), None, p.files)
  }

  /** Page `n` renders, its file is created and the image is encoded. */
  predicate PageSucceeds(doc: Document, outPath: string, b: Backend, n: nat)
    requires n < doc.NumPage()
  {
    doc.images[n].Ok? && b.create(PagePath(outPath, n)).Pass? && b.encode(doc.images[n].value).Pass?
  }

  /** The error a failing page `n` returns: its render error, else the
      file-creation error, else the encoder's error. */
  function PageError(doc: Document, outPath: string, b: Backend, n: nat): string
    requires n < doc.NumPage()
    requires !PageSucceeds(doc, outPath, b, n)
  {
    if doc.images[n].Err? then doc.images[n].msg
    else if b.create(PagePath(outPath, n)).Fail? then b.create(PagePath(outPath, n)).msg
    else b.encode(doc.images[n].value).msg
  }

  /** The file that a successful page `n` leaves: its image, PNG-encoded. */
  function GoodFile(doc: Document, outPath: string, n: nat): PageFile
    requires n < doc.NumPage()
  {
    PageFile(PagePath(outPath, n),
             if doc.images[n].Ok? then Encoded(Png, doc.images[n].value) else Incomplete)
  }

  /** A failure, once it happens, is final: later pages are not attempted. */
  lemma {:induction false} FailureIsFinal(doc: Document, outPath: string, b: Backend, k: nat, k': nat)
    requires k <= k' <= doc.NumPage()
    requires RenderPages(doc, outPath, b, k).failure.Some?
    ensures RenderPages(doc, outPath, b, k') == RenderPages(doc, outPath, b, k)
    decreases k' - k
  {
    if k < k' {
      FailureIsFinal(doc, outPath, b, k, k' - 1);
    }
  }

  /** While every page so far succeeds, the loop has written exactly one file
      per page, in increasing page order. */
  lemma {:induction false} RenderAllGood(doc: Document, outPath: string, b: Backend, k: nat)
    requires k <= doc.NumPage()
    requires forall n :: 0 <= n < k ==> PageSucceeds(doc, outPath, b, n)
    ensures RenderPages(doc, outPath, b, k).failure == None
    ensures RenderPages(doc, outPath, b, k).files == seq(k, n requires 0 <= n < k => GoodFile(doc, outPath, n))
  {
    if k > 0 {
      RenderAllGood(doc, outPath, b, k - 1);
      assert PageSucceeds(doc, outPath, b, k - 1);
      var prev := seq(k - 1, n requires 0 <= n < k - 1 => GoodFile(doc, outPath, n));
      assert seq(k, n requires 0 <= n < k => GoodFile(doc, outPath, n)) == prev + [GoodFile(doc, outPath, k - 1)];
    }
  }

  /** A page that fails stops the loop there with that page's own error: the
      result keeps the files of the earlier pages, plus the failing page's
      own file if it was created. */
  lemma RenderFirstFailure(doc: Document, outPath: string, b: Backend, f: nat)
    requires f < doc.NumPage()
    requires forall n :: 0 <= n < f ==> PageSucceeds(doc, outPath, b, n)
    requires !PageSucceeds(doc, outPath, b, f)
    ensures var p := RenderPages(doc, outPath, b, doc.NumPage());
      var before := seq(f, n requires 0 <= n < f => GoodFile(doc, outPath, n));
      p.failure == Some(PageError(doc, outPath, b, f)) &&
      p.files == (if doc.images[f].Ok? && b.create(PagePath(outPath, f)).Pass?
                  then before + [PageFile(PagePath(outPath, f), Incomplete)]
                  else before)
  {
    RenderAllGood(doc, outPath, b, f);
    FailureIsFinal(doc, outPath, b, f + 1, doc.NumPage());
  }

  /** If some page below `k` fails, there is a first one. */
  lemma {:induction false} FirstFailingPage(doc: Document, outPath: string, b: Backend, k: nat) returns (f: nat)
    requires k <= doc.NumPage()
    requires exists n :: 0 <= n < k && !PageSucceeds(doc, outPath, b, n)
    ensures f < k && !PageSucceeds(doc, outPath, b, f)
    ensures forall n :: 0 <= n < f ==> PageSucceeds(doc, outPath, b, n)
  {
    if exists n :: 0 <= n < k - 1 && !PageSucceeds(doc, outPath, b, n) {
      f := FirstFailingPage(doc, outPath, b, k - 1);
    } else {
      f := k - 1;
    }
  }

  /** Opening failure returns `(0, err)` and writes nothing. */
  lemma ConvertOpenFailure(path: string, outPath: string, b: Backend)
    requires b.open(path).Err?
    ensures Convert(path, outPath, b) == Conversion(0, Some(b.open(path).msg), [])
  {
  }

  /** The conversion succeeds exactly when the document opens and every page
      succeeds; then it returns the page count and one file per page, page
      `n` in `page_<n>.jpeg`, all holding PNG data. */
  lemma ConvertSuccess(path: string, outPath: string, b: Backend)
    ensures Convert(path, outPath, b).err.None? <==>
      b.open(path).Ok? &&
      forall n :: 0 <= n < b.open(path).value.NumPage() ==> PageSucceeds(b.open(path).value, outPath, b, n)
    ensures Convert(path, outPath, b).err.None? ==>
      var doc := b.open(path).value;
      var c := Convert(path, outPath, b);
      c.count == doc.NumPage() && |c.files| == doc.NumPage() &&
      forall n :: 0 <= n < doc.NumPage() ==>
        doc.images[n].Ok? && c.files[n] == PageFile(PagePath(outPath, n), Encoded(Png, doc.images[n].value))
  {
    if b.open(path).Ok? {
      var doc := b.open(path).value;
      if forall n :: 0 <= n < doc.NumPage() ==> PageSucceeds(doc, outPath, b, n) {
        RenderAllGood(doc, outPath, b, doc.NumPage());
        forall n | 0 <= n < doc.NumPage()
          ensures doc.images[n].Ok?
        {
          assert PageSucceeds(doc, outPath, b, n);
        }
      } else {
        var f := FirstFailingPage(doc, outPath, b, doc.NumPage());
        RenderFirstFailure(doc, outPath, b, f);
      }
    }
  }

  /** When the document opens and page `f` is the first to fail,
      `ConvertPdfToImg` returns `(0, err)` with that page's error, leaving the
      earlier pages' files and the failing page's file if it was created. */
  lemma ConvertFirstFailure(path: string, outPath: string, b: Backend, f: nat)
    requires b.open(path).Ok? && f < b.open(path).value.NumPage()
    requires forall n :: 0 <= n < f ==> PageSucceeds(b.open(path).value, outPath, b, n)
    requires !PageSucceeds(b.open(path).value, outPath, b, f)
    ensures var doc := b.open(path).value;
      var c := Convert(path, outPath, b);
      c.count == 0 && c.err == Some(PageError(doc, outPath, b, f)) &&
      f <= |c.files| && c.files[..f] == seq(f, n requires 0 <= n < f => GoodFile(doc, outPath, n)) &&
      (|c.files| == f + 1 <==> doc.images[f].Ok? && b.create(PagePath(outPath, f)).Pass?)
  {
    var doc := b.open(path).value;
    RenderFirstFailure(doc, outPath, b, f);
    var before := seq(f, n requires 0 <= n < f => GoodFile(doc, outPath, n));
    assert (before + [PageFile(PagePath(outPath, f), Incomplete)])[..f] == before;
  }

  /** Every failure returns count 0. */
  lemma ConvertFailureCount(path: string, outPath: string, b: Backend)
    requires Convert(path, outPath, b).err.Some?
    ensures Convert(path, outPath, b).count == 0
  {
  }

  /** `ConvertPdfToImg(path, outPath)`: returns the page count and no error,
      or 0 and the first error; `files` are the files left in `outPath`. */
  method ConvertPdfToImg(path: string, outPath: string, b: Backend)
    returns (count: int, err: Option<string>, files: seq<PageFile>)
    ensures Conversion(count, err, files) == Convert(path, outPath, b)
  {
    var opening := b.open(path);
    if opening.Err? {
      return 0, Some(opening.msg), [];
    }
    var doc := opening.value;
    var totalPages := doc.NumPage();
    files := [];
    var n := 0;
    while n < totalPages
      invariant 0 <= n <= totalPages
      invariant RenderPages(doc, outPath, b, n) == Progress(files, None)
    {
      var img := doc.images[n];
      if img.Err? {
        FailureIsFinal(doc, outPath, b, n + 1, totalPages);
        return 0, Some(img.msg), files;
      }
      var imgPath := PagePath(outPath, n);
      var created := b.create(imgPath);
      if created.Fail? {
        FailureIsFinal(doc, outPath, b, n + 1, totalPages);
        return 0, Some(created.msg), files;
      }
      var encoded := b.encode(img.value);
      if encoded.Fail? {
        FailureIsFinal(doc, outPath, b, n + 1, totalPages);
        return 0, Some(encoded.msg), files + [PageFile(imgPath, Incomplete)];
      }
      files := files + [PageFile(imgPath, Encoded(Png, img.value))];
      n := n + 1;
    }
    return totalPages, None, files;
  }

  /** Every file left behind is named `.jpeg` yet any image in it is PNG. */
  lemma FilesArePngNamedJpeg(path: string, outPath: string, b: Backend, i: nat)
    requires i < |Convert(path, outPath, b).files|
    ensures var f := Convert(path, outPath, b).files[i];
      FormatOfExtension(Paths.Ext(f.path)) == Some(Jpeg) &&
      (f.content.Encoded? ==> f.content.format == Png)
  {
    var doc := b.open(path).value;
    FilesOfPrefix(doc, outPath, b, doc.NumPage(), i);
    PagePathIsJpeg(outPath, i);
  }

  /** One iteration adds at most the file of page `n`. */
  lemma StepFiles(doc: Document, outPath: string, b: Backend, files: seq<PageFile>, n: nat)
    requires n < doc.NumPage()
    ensures var q := Step(doc, outPath, b, files, n);
      q.files == files ||
      (|q.files| == |files| + 1 && q.files[..|files|] == files &&
       q.files[|files|].path == PagePath(outPath, n) &&
       (q.files[|files|].content.Encoded? ==> q.files[|files|].content.format == Png))
    ensures Step(doc, outPath, b, files, n).failure.None? ==>
      |Step(doc, outPath, b, files, n).files| == |files| + 1
  {
  }

  lemma {:induction false} FilesOfPrefix(doc: Document, outPath: string, b: Backend, k: nat, i: nat)
    requires k <= doc.NumPage()
    requires i < |RenderPages(doc, outPath, b, k).files|
    ensures var f := RenderPages(doc, outPath, b, k).files[i];
      f.path == PagePath(outPath, i) && (f.content.Encoded? ==> f.content.format == Png)
  {
    assert k > 0;
    var p := RenderPages(doc, outPath, b, k - 1);
    var q := RenderPages(doc, outPath, b, k);
    ProgressLength(doc, outPath, b, k - 1);
    if p.failure.Some? {
      assert q == p;
      FilesOfPrefix(doc, outPath, b, k - 1, i);
    } else {
      assert q == Step(doc, outPath, b, p.files, k - 1);
      StepFiles(doc, outPath, b, p.files, k - 1);
      if i < |p.files| {
        assert q.files[i] == p.files[i];
        FilesOfPrefix(doc, outPath, b, k - 1, i);
      } else {
        assert i == k - 1;
      }
    }
  }

  /** A loop still running after `k` pages has written exactly `k` files. */
  lemma {:induction false} ProgressLength(doc: Document, outPath: string, b: Backend, k: nat)
    requires k <= doc.NumPage()
    ensures RenderPages(doc, outPath, b, k).failure.None? ==> |RenderPages(doc, outPath, b, k).files| == k
    ensures |RenderPages(doc, outPath, b, k).files| <= k
  {
    if k > 0 {
      ProgressLength(doc, outPath, b, k - 1);
      var p := RenderPages(doc, outPath, b, k - 1);
      if p.failure.None? {
        StepFiles(doc, outPath, b, p.files, k - 1);
      }
    }
  }
}
