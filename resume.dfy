/** Page extraction from a résumé file: each image is OCR'd into a `Page`,
    a PNG gives one page, a PDF is rasterised into a temporary directory
    whose regular, non-empty files are OCR'd in the order `filepath.Walk`
    visits them. The OCR engine, the temporary directory and the file sizes
    are oracles. */
module Resume {
  import opened Wrappers
  import Strings
  import Paths
  import PdfConvertor

  /** One recognised word; box geometry and confidence are never read. */
  datatype BoundingBox = BoundingBox(word: string)

  /** The OCR engine: the words it finds in the image at a path, or its error. */
  type Ocr = string -> Result<seq<BoundingBox>>

  const NewlineCut: set<char> := {'\n'}

  /** What one word contributes to a page's text. */
  function WordText(w: BoundingBox): string {
    " " + Strings.Trim(w.word, NewlineCut) + " "
  }

  /** The text of a word list: the word contributions, in order. */
  function WordsText(words: seq<BoundingBox>): string {
    if words == [] then ""
    else WordsText(words[..|words| - 1]) + WordText(words[|words| - 1])
  }

  datatype Page = Page(pageNum: int, words: seq<BoundingBox>, failed: bool) {

    /** `Page.String`: accumulates the word contributions into `line`. */
    method String() returns (line: string)
      ensures line == WordsText(words)
    {
      line := "";
      for k := 0 to |words|
        invariant line == WordsText(words[..k])
      {
        ghost var prefix := words[..k + 1];
        assert prefix[..k] == words[..k] && prefix[k] == words[k];
        assert WordsText(prefix) == WordsText(words[..k]) + WordText(words[k]);
        var trimmed := Strings.Trim(words[k].word, NewlineCut);
        line := line + (" " + trimmed + " ");
      }
      assert words[..|words|] == words;
    }
  }

  function TrimmedLengths(words: seq<BoundingBox>): nat {
    if words == [] then 0
    else TrimmedLengths(words[..|words| - 1]) + |Strings.Trim(words[|words| - 1].word, NewlineCut)| + 2
  }

  /** The text is as long as the trimmed words plus two spaces per word. */
  lemma {:induction false} WordsTextLength(words: seq<BoundingBox>)
    ensures |WordsText(words)| == TrimmedLengths(words)
  {
    if words != [] {
      WordsTextLength(words[..|words| - 1]);
    }
  }

  /** Non-empty text starts and ends with a space, and is empty exactly when
      there are no words. */
  lemma {:induction false} WordsTextSpaces(words: seq<BoundingBox>)
    ensures WordsText(words) == "" <==> words == []
    ensures words != [] ==>
      WordsText(words)[0] == ' ' && WordsText(words)[|WordsText(words)| - 1] == ' '
  {
    if words != [] {
      var init := words[..|words| - 1];
      WordsTextSpaces(init);
      var t := WordsText(words);
      assert t == WordsText(init) + WordText(words[|words| - 1]);
      if init == [] {
        assert t == WordText(words[0]);
      }
    }
  }

  /** The page `extractWordsToPages` appends: numbered `page`, with the words
      OCR found (none when OCR fails), and marked failed in every case. */
  function OcrPage(ocr: Ocr, path: string, page: int): (p: Page)
    ensures p.pageNum == page
    ensures p.failed
    ensures p.words == (if ocr(path).Ok? then ocr(path).value else [])
  {
    var failed := true;
    match ocr(path)
    case Ok(words) => Page(page, words, failed)
    case Err(_) => Page(page, [], failed)
  }

  /** The page list that `extractWordsToPages` appends to through a pointer. */
  class PageList {
    var pages: seq<Page>

    constructor ()
      ensures pages == []
    {
      pages := [];
    }

    method ExtractWordsToPages(ocr: Ocr, path: string, page: int)
      modifies this
      ensures pages == old(pages) + [OcrPage(ocr, path, page)]
    {
      var failed := true;
      var words: seq<BoundingBox>;
      var found := ocr(path);
      if found.Err? {
        failed := true;
        words := [];
      } else {
        words := found.value;
      }
      pages := pages + [Page(page, words, failed)];
    }

    /** `filepath.Walk` with the callback of `extractPageData`: every
        regular, non-empty entry visited becomes a page, numbered by a
        counter that only those entries advance. */
    method ExtractWalkedPages(ocr: Ocr, walk: seq<Entry>)
      modifies this
      ensures pages == old(pages) + WalkPages(ocr, walk, 0)
    {
      ghost var added: seq<Page> := [];
      var i := 0;
      for k := 0 to |walk|
        invariant pages == old(pages) + added
        invariant added + WalkPages(ocr, walk[k..], i) == WalkPages(ocr, walk, 0)
      {
        var d := walk[k];
        assert walk[k..][1..] == walk[k + 1..];
        if d.isRegular && d.size > 0 {
          ExtractWordsToPages(ocr, d.path, i);
          added := added + [OcrPage(ocr, d.path, i)];
          i := i + 1;
        }
      }
    }
  }

  /** An entry `filepath.Walk` visits: its path, whether it is a regular
      file, and its size. */
  datatype Entry = Entry(path: string, isRegular: bool, size: int)

  predicate Qualifies(e: Entry) {
    e.isRegular && e.size > 0
  }

  /** The pages the walk callback appends, numbering from counter `i`. */
  function WalkPages(ocr: Ocr, entries: seq<Entry>, i: int): seq<Page> {
    if entries == [] then []
    else if Qualifies(entries[0]) then [OcrPage(ocr, entries[0].path, i)] + WalkPages(ocr, entries[1..], i + 1)
    else WalkPages(ocr, entries[1..], i)
  }

  /** The paths of the qualifying entries, in walk order. */
  function QualifyingPaths(entries: seq<Entry>): seq<string> {
    if entries == [] then []
    else (if Qualifies(entries[0]) then [entries[0].path] else []) + QualifyingPaths(entries[1..])
  }

  /** The entries for the files at `paths`, in that order, with the sizes
      the file system reports. */
  function FileEntries(paths: seq<string>, size: string -> int): (r: seq<Entry>)
    ensures |r| == |paths|
    ensures forall j :: 0 <= j < |r| ==> r[j] == Entry(paths[j], true, size(paths[j]))
  {
    if paths == [] then [] else [Entry(paths[0], true, size(paths[0]))] + FileEntries(paths[1..], size)
  }

  function PathsOf(files: seq<PdfConvertor.PageFile>): (r: seq<string>)
    ensures |r| == |files|
    ensures forall j :: 0 <= j < |r| ==> r[j] == files[j].path
  {
    if files == [] then [] else [files[0].path] + PathsOf(files[1..])
  }

  /** What `filepath.Walk(dir, ...)` visits in a directory that holds
      exactly the files `files`: the directory itself, then every file, in
      lexical order (names in one directory sort as their joined paths). */
  function DirectoryWalk(dir: string, files: seq<PdfConvertor.PageFile>, size: string -> int): seq<Entry> {
    [Entry(dir, false, size(dir))] + FileEntries(Strings.Sort(PathsOf(files)), size)
  }

  /** Entries for non-empty files all qualify, so their qualifying paths are
      all their paths. */
  lemma {:induction false} NonEmptyFilesQualify(paths: seq<string>, size: string -> int)
    requires forall p :: p in paths ==> size(p) > 0
    ensures QualifyingPaths(FileEntries(paths, size)) == paths
  {
    if paths != [] {
      var entries := FileEntries(paths, size);
      assert entries[1..] == FileEntries(paths[1..], size);
      NonEmptyFilesQualify(paths[1..], size);
    }
  }

  /** One page per regular non-empty entry, in walk order, numbered `i`,
      `i + 1`, ...; the other entries do not advance the counter. */
  lemma {:induction false} WalkPagesNumbering(ocr: Ocr, entries: seq<Entry>, i: int)
    ensures |WalkPages(ocr, entries, i)| == |QualifyingPaths(entries)|
    ensures forall j :: 0 <= j < |QualifyingPaths(entries)| ==>
      WalkPages(ocr, entries, i)[j] == OcrPage(ocr, QualifyingPaths(entries)[j], i + j)
  {
    if entries != [] {
      WalkPagesNumbering(ocr, entries[1..], if Qualifies(entries[0]) then i + 1 else i);
    }
  }

  /** The file extension, lower-cased, that selects the input format. */
  function FileExt(resumePath: string): string {
    Strings.ToLower(Paths.Ext(resumePath))
  }

  const JpegError: string := "fomat JPEG is currently not working"

  function UnsupportedError(ext: string): string {
    "format " + ext + " not supported yet"
  }

  /** The collaborators of `extractPageData`. */
  datatype Env = Env(
    ocr: Ocr,
    mkdirTemp: Result<string>,       // os.MkdirTemp: the new directory, or its error
    pdf: PdfConvertor.Backend,       // what ConvertPdfToImg talks to
    size: string -> int)             // the size os.Lstat reports for a path

  datatype Extracted = Extracted(pages: seq<Page>, tempPath: string, err: Option<string>)

  /** What `extractPageData(resumePath)` returns. */
  function PageData(resumePath: string, env: Env): Extracted {
    var ext := FileExt(resumePath);
    if ext == ".png" then
      Extracted([OcrPage(env.ocr, resumePath, 0)], "", None)
    else if ext == ".pdf" then
      match env.mkdirTemp
      case Err(e) => Extracted([], "", Some("error creating temp folder : " + e))
      case Ok(dir) =>
        var conv := PdfConvertor.Convert(resumePath, dir, env.pdf);
        if conv.err.Some? then Extracted([], dir, Some("error converting file : " + conv.err.value))
        else Extracted(WalkPages(env.ocr, DirectoryWalk(dir, conv.files, env.size), 0), "", None)
    else if ext == ".jpeg" || ext == ".jpg" then
      Extracted([], "", Some(JpegError))
    else
      Extracted([], "", Some(UnsupportedError(ext)))
  }

  /** `extractPageData`. The PDF branch declares its own `outImgsPath`, which
      shadows the one returned at the end, so a successful PDF run returns an
      empty temporary path. */
  method ExtractPageData(resumePath: string, env: Env)
    returns (pages: seq<Page>, tempPath: string, err: Option<string>)
    ensures Extracted(pages, tempPath, err) == PageData(resumePath, env)
  {
    var list := new PageList();
    var fileExt := Strings.ToLower(Paths.Ext(resumePath));
    var outImgsPath := "";
    if fileExt == ".png" {
      list.ExtractWordsToPages(env.ocr, resumePath, 0);
    } else if fileExt == ".pdf" {
      var outImgsPath := if env.mkdirTemp.Ok? then env.mkdirTemp.value else "";
      if env.mkdirTemp.Err? {
        return [], outImgsPath, Some("error creating temp folder : " + env.mkdirTemp.msg);
      }
      var _, convErr, files := PdfConvertor.ConvertPdfToImg(resumePath, outImgsPath, env.pdf);
      if convErr.Some? {
        return [], outImgsPath, Some("error converting file : " + convErr.value);
      }
      list.ExtractWalkedPages(env.ocr, DirectoryWalk(outImgsPath, files, env.size));
    } else if fileExt == ".jpeg" || fileExt == ".jpg" {
      return [], outImgsPath, Some(JpegError);
    } else {
      return [], outImgsPath, Some(UnsupportedError(fileExt));
    }
    return list.pages, outImgsPath, None;
  }

  /** A `.png` in any letter case yields one page, numbered 0, and no
      temporary directory. */
  lemma PngGivesOnePage(resumePath: string, env: Env)
    requires FileExt(resumePath) == ".png"
    ensures var r := PageData(resumePath, env);
      r.err == None && r.tempPath == "" && |r.pages| == 1 && r.pages[0].pageNum == 0 &&
      r.pages[0] == OcrPage(env.ocr, resumePath, 0)
  {
  }

  lemma UpperPngExt()
    ensures FileExt("cv/Resume.PNG") == ".png"
  {
    UpperPngPathExt();
    LowerPng();
  }

  lemma UpperPngPathExt()
    ensures Paths.Ext("cv/Resume.PNG") == ".PNG"
  {
    Paths.ExtOfEnding("cv/Resume", "PNG");
    assert "cv/Resume" + "." + "PNG" == "cv/Resume.PNG";
  }

  lemma LowerPng()
    ensures Strings.ToLower(".PNG") == ".png"
  {
    assert Strings.ToLower("G") == "g";
    assert Strings.ToLower("NG") == "ng";
    assert Strings.ToLower("PNG") == "png";
  }

  /** Upper-case extensions are recognised. */
  lemma UpperCasePng(env: Env)
    ensures PageData("cv/Resume.PNG", env).pages == [OcrPage(env.ocr, "cv/Resume.PNG", 0)]
  {
    UpperPngExt();
  }

  /** Every input that is neither PNG nor PDF fails with no pages: JPEG with
      its own message, anything else with a message naming the extension. */
  lemma UnsupportedFormats(resumePath: string, env: Env)
    requires FileExt(resumePath) != ".png" && FileExt(resumePath) != ".pdf"
    ensures var r := PageData(resumePath, env);
      r.pages == [] && r.tempPath == "" &&
      r.err == Some(if FileExt(resumePath) in {".jpeg", ".jpg"} then JpegError
                    else UnsupportedError(FileExt(resumePath)))
  {
  }

  /** A successful PDF run numbers its pages 0, 1, 2, ... over the qualifying
      walk entries and returns an empty temporary path; a conversion failure
      returns the new directory and no pages. */
  lemma PdfPages(resumePath: string, env: Env)
    requires FileExt(resumePath) == ".pdf"
    requires env.mkdirTemp.Ok?
    ensures var r := PageData(resumePath, env);
      var dir := env.mkdirTemp.value;
      var conv := PdfConvertor.Convert(resumePath, dir, env.pdf);
      var walk := DirectoryWalk(dir, conv.files, env.size);
      (conv.err.Some? ==>
        r.pages == [] && r.tempPath == dir && r.err == Some("error converting file : " + conv.err.value)) &&
      (conv.err.None? ==>
        r.err == None && r.tempPath == "" &&
        |r.pages| == |QualifyingPaths(walk)| &&
        forall j :: 0 <= j < |r.pages| ==>
          r.pages[j].pageNum == j && r.pages[j] == OcrPage(env.ocr, QualifyingPaths(walk)[j], j))
  {
    var dir := env.mkdirTemp.value;
    var conv := PdfConvertor.Convert(resumePath, dir, env.pdf);
    WalkPagesNumbering(env.ocr, DirectoryWalk(dir, conv.files, env.size), 0);
  }

  /** When every file in the directory is non-empty, the walk's qualifying
      paths are the file paths in lexical order. */
  lemma WalkedFiles(dir: string, files: seq<PdfConvertor.PageFile>, size: string -> int)
    requires forall n :: 0 <= n < |files| ==> size(files[n].path) > 0
    ensures QualifyingPaths(DirectoryWalk(dir, files, size)) == Strings.Sort(PathsOf(files))
  {
    var paths := PathsOf(files);
    assert forall p :: p in paths ==> size(p) > 0;
    WalkedPaths(dir, paths, size);
  }

  lemma WalkedPaths(dir: string, paths: seq<string>, size: string -> int)
    requires forall p :: p in paths ==> size(p) > 0
    ensures QualifyingPaths([Entry(dir, false, size(dir))] + FileEntries(Strings.Sort(paths), size)) == Strings.Sort(paths)
  {
    SortedNonEmpty(paths, size);
    NonEmptyFilesQualify(Strings.Sort(paths), size);
    var walk := [Entry(dir, false, size(dir))] + FileEntries(Strings.Sort(paths), size);
    assert walk[1..] == FileEntries(Strings.Sort(paths), size);
  }

  /** Sorting brings in no new path. */
  lemma SortedNonEmpty(paths: seq<string>, size: string -> int)
    requires forall p :: p in paths ==> size(p) > 0
    ensures forall p :: p in Strings.Sort(paths) ==> size(p) > 0
  {
    Strings.SortOrderedPermutation(paths);
    assert forall p :: p in Strings.Sort(paths) ==> p in multiset(paths);
  }

  /** Up to 1000 page files, the lexical order is the page order. */
  lemma PageFilesSorted(dir: string, files: seq<PdfConvertor.PageFile>)
    requires |files| <= 1000
    requires forall n :: 0 <= n < |files| ==> files[n].path == PdfConvertor.PagePath(dir, n)
    ensures Strings.Sort(PathsOf(files)) == PathsOf(files)
  {
    var paths := PathsOf(files);
    forall i | 0 < i < |paths|
      ensures Strings.Less(paths[i - 1], paths[i])
    {
      PdfConvertor.PagePathsOrdered(dir, i - 1, i);
    }
    Strings.SortIncreasing(paths);
  }

  /** A converted PDF whose page files are all non-empty gives one page per
      PDF page. Up to 1000 pages, page `j` is the OCR of the image of PDF
      page `j`, because the walk's lexical order is then the page order. */
  lemma PdfPageCount(resumePath: string, env: Env)
    requires FileExt(resumePath) == ".pdf"
    requires env.mkdirTemp.Ok?
    requires PdfConvertor.Convert(resumePath, env.mkdirTemp.value, env.pdf).err.None?
    requires forall n :: 0 <= n < PdfConvertor.Convert(resumePath, env.mkdirTemp.value, env.pdf).count ==>
      env.size(PdfConvertor.PagePath(env.mkdirTemp.value, n)) > 0
    ensures var conv := PdfConvertor.Convert(resumePath, env.mkdirTemp.value, env.pdf);
      |PageData(resumePath, env).pages| == conv.count
    ensures var conv := PdfConvertor.Convert(resumePath, env.mkdirTemp.value, env.pdf);
      conv.count <= 1000 ==>
        forall j :: 0 <= j < conv.count ==>
          PageData(resumePath, env).pages[j] == OcrPage(env.ocr, PdfConvertor.PagePath(env.mkdirTemp.value, j), j)
  {
    var dir := env.mkdirTemp.value;
    var conv := PdfConvertor.Convert(resumePath, dir, env.pdf);
    PdfConvertor.ConvertSuccess(resumePath, dir, env.pdf);
    WalkedFiles(dir, conv.files, env.size);
    PdfPages(resumePath, env);
    if conv.count <= 1000 {
      PageFilesSorted(dir, conv.files);
    }
  }

  /** A PDF whose page `f` is the first that cannot be rendered, created or
      encoded yields no pages, keeps the temporary directory, and reports
      that page's own error behind the conversion prefix. */
  lemma PdfPageFailure(resumePath: string, env: Env, f: nat)
    requires FileExt(resumePath) == ".pdf"
    requires env.mkdirTemp.Ok? && env.pdf.open(resumePath).Ok?
    requires f < env.pdf.open(resumePath).value.NumPage()
    requires forall n :: 0 <= n < f ==>
      PdfConvertor.PageSucceeds(env.pdf.open(resumePath).value, env.mkdirTemp.value, env.pdf, n)
    requires !PdfConvertor.PageSucceeds(env.pdf.open(resumePath).value, env.mkdirTemp.value, env.pdf, f)
    ensures var r := PageData(resumePath, env);
      r.pages == [] && r.tempPath == env.mkdirTemp.value &&
      r.err == Some("error converting file : " +
        PdfConvertor.PageError(env.pdf.open(resumePath).value, env.mkdirTemp.value, env.pdf, f))
  {
    PdfConvertor.ConvertFirstFailure(resumePath, env.mkdirTemp.value, env.pdf, f);
  }

  /** The failure flag is set on every page produced, whether OCR worked or not. */
  lemma {:induction false} AllPagesMarkedFailed(resumePath: string, env: Env, j: nat)
    requires j < |PageData(resumePath, env).pages|
    ensures PageData(resumePath, env).pages[j].failed
  {
    if FileExt(resumePath) == ".pdf" && env.mkdirTemp.Ok? {
      PdfPages(resumePath, env);
    }
  }

  /** Page numbers are distinct across the pages produced. */
  lemma PageNumbersDistinct(resumePath: string, env: Env, j: nat, k: nat)
    requires j < k < |PageData(resumePath, env).pages|
    ensures PageData(resumePath, env).pages[j].pageNum != PageData(resumePath, env).pages[k].pageNum
  {
    if FileExt(resumePath) == ".pdf" && env.mkdirTemp.Ok? {
      PdfPages(resumePath, env);
    }
  }
}
