# go-cv-parse, modelled in Dafny

This project models the sequential core of `go-cv-parse`. The program reads a
résumé (PNG or PDF), turns each page into OCR words, stores the pages in a
vector store with their embeddings, and answers questions about the résumé in
a read-eval loop through a generative model. The model covers five pieces:

- **Page extraction** (`cmd/parseResume/resume.go`, module `Resume`).
  - `Page.String` builds a page's text.
  - `extractWordsToPages` appends one page to a list in place. It is a
    method of the class `PageList`.
  - `extractPageData` dispatches on the lower-cased extension. For a PDF it
    converts the pages to images and OCRs the files of the temporary
    directory in the order `filepath.Walk` visits them, counting only
    regular, non-empty files. A successful PDF run returns an
    empty temporary path, because the variable declared inside the PDF case
    shadows the one that is returned.
- **PDF conversion** (`internal/utils/pdf-convertor.go`, module
  `PdfConvertor`). One file per page, named `page_%03d.jpeg`, holding PNG
  data. The loop stops at the first page that cannot be rendered, created or
  encoded.
- **RAG client** (`cmd/rag/rag.go`, modules `Rag` and `RagPrompt`).
  - `decodeGetResults` covers the vector-store answer.
  - `GenerateRagResponse` covers the prompt template filled by
    `fmt.Sprintf`, the exactly-one-candidate check and the joining of text
    parts.
  - `EmbedDocuments` covers the embedding batch of `"hellp"` fillers and one
    store object per page.
- **The question loop** of `main.go` (module `Shell`). Each line is trimmed.
  The loop ends at end of input or at `bye` in any case, and skips blank
  lines. Every other line goes to `GenerateRagResponse`, and the loop goes on
  after an error.
- **The library functions these rely on**, restricted to what the core uses
  (modules `Strings` and `Paths`):
  - `strings.Trim`, `TrimSpace`, `ToLower`, `EqualFold` and `Join`, which the
    core calls;
  - `strings.Split` on one character, which the core does not call. It is
    there only as the inverse of `Join`, for `SplitJoin` and
    `AnswerSplitsIntoParts`;
  - `fmt`'s `%d`, `%03d` and `%s`;
  - `filepath.Ext` and `filepath.Join`;
  - the lexical order of Go strings and `sort.Strings`, by which
    `filepath.Walk` orders the entries of a directory.

Most external services are oracles: function-typed fields of a datatype,
whose results are inputs to the model. These are the OCR engine, the PDF
library, `os.Create`, the PNG encoder, the file sizes the file system
reports, the embedding model, the vector store and the generative model.
`os.MkdirTemp` is different: it is a given result, the new directory or its
error. The directory walk is not an input. It is computed from the files the
conversion wrote: the directory itself, then those files in lexical order.

The Go loops are Dafny methods with loops: `Page.String`, `ConvertPdfToImg`,
`decodeGetResults`, the part loop of `GenerateRagResponse` (`ReadReply`), the
walk callback (`PageList.ExtractWalkedPages`), the batch and vector loops of
`EmbedDocuments`, and the `main` loop.
`extractWordsToPages`, `extractPageData` and `GenerateRagResponse` have no
loop of their own. They are methods because they change the page list or call
those loops. Each method is proved equal to a specification function:
`Page.String` to `WordsText`, `extractPageData` to `PageData`,
`ConvertPdfToImg` to `Convert`, `decodeGetResults` to `Decode`,
`GenerateRagResponse` to `RagAnswer`, and the `main` loop to `Forwarded`. The
properties the code promises are then lemmas about those functions.

## Model

| member | source | states |
|---|---|---|
| Resume.Page.String | cmd/parseResume/resume.go:23-30 | the accumulated line is the in-order concatenation of `" " + Trim(word, "\n") + " "` over the page's words |
| Resume.WordsTextLength | cmd/parseResume/resume.go:24-27 | the page text is as long as the sum of the trimmed word lengths plus two per word |
| Resume.WordsTextSpaces | cmd/parseResume/resume.go:23-29 | the page text is empty exactly when there are no words; otherwise it starts and ends with a space |
| Resume.OcrPage | cmd/parseResume/resume.go:32-51 | the page appended for an OCR call has the given number, is always marked failed, and has the OCR words, or none when OCR fails |
| Resume.PageList.ExtractWordsToPages | cmd/parseResume/resume.go:45-49 | exactly one page is appended and the earlier pages are unchanged |
| Resume.PageList.ExtractWalkedPages | cmd/parseResume/resume.go:83-91 | the walk callback appends the pages of the qualifying entries, in walk order, after the pages already there |
| Resume.WalkPagesNumbering | cmd/parseResume/resume.go:83-91 | one page per regular, non-empty entry, in walk order, numbered consecutively from the counter; other entries do not advance it |
| Resume.ExtractPageData | cmd/parseResume/resume.go:53-103 | pages, temporary path and error are those of `PageData`: PNG, PDF (mkdir, convert, walk of the converted files), JPEG and the default case, each with its own error text |
| Resume.PngGivesOnePage | cmd/parseResume/resume.go:65-66 | a `.png` extension in any case gives one page numbered 0, an empty temporary path and no error |
| Resume.UpperPngExt | cmd/parseResume/resume.go:59 | the extension is lower-cased before matching: `cv/Resume.PNG` selects the PNG case |
| Resume.UpperPngPathExt | cmd/parseResume/resume.go:59 | `filepath.Ext("cv/Resume.PNG")` is `.PNG` |
| Resume.LowerPng | cmd/parseResume/resume.go:59 | `strings.ToLower(".PNG")` is `.png` |
| Resume.UpperCasePng | cmd/parseResume/resume.go:59-66 | an upper-case `.PNG` résumé yields exactly its one OCR page |
| Resume.UnsupportedFormats | cmd/parseResume/resume.go:96-99 | `.jpeg` and `.jpg` fail with the JPEG message, any other non-PDF extension with a message naming it; there are no pages and the temporary path is empty |
| Resume.PdfPages | cmd/parseResume/resume.go:70-102 | after a conversion failure there are no pages, the new directory is returned and the error is `error converting file : ` followed by the conversion's error; after success the pages are the qualifying entries of the walk of the converted files, numbered 0, 1, 2, …, and the temporary path is empty |
| Resume.PdfPageFailure | cmd/parseResume/resume.go:78-82 | when page `f` is the first PDF page that cannot be rendered, created or encoded, there are no pages, the new directory is returned, and the error is `error converting file : ` followed by that page's own error |
| Resume.WalkedFiles | cmd/parseResume/resume.go:84-91 | when every converted file is non-empty, the paths the walk callback OCRs are exactly the converted files' paths, in lexical order |
| Resume.NonEmptyFilesQualify | cmd/parseResume/resume.go:86 | regular files of positive size all pass the callback's test, so every one of them is OCR'd |
| Resume.PageFilesSorted | internal/utils/pdf-convertor.go:29 | up to 1000 page files, lexical order leaves the paths in page order |
| Resume.PdfPageCount | cmd/parseResume/resume.go:78-91 | a converted PDF whose page files are non-empty gives exactly one page per PDF page; up to 1000 pages, page `j` is the OCR of PDF page `j`'s image and is numbered `j` |
| Resume.AllPagesMarkedFailed | cmd/parseResume/resume.go:34-49 | every page produced carries the failure flag |
| Resume.PageNumbersDistinct | cmd/parseResume/resume.go:83-91 | no two pages produced share a page number |
| PdfConvertor.PageFileNameShape | internal/utils/pdf-convertor.go:29 | a page file name is `page_`, the zero-padded number and `.jpeg`; it has 13 characters exactly when the page number is below 1000 |
| PdfConvertor.DecimalLong | internal/utils/pdf-convertor.go:29 | numbers from 1000 on print with at least four digits, so `%03d` does not truncate them |
| PdfConvertor.PageFileNamesDistinct | internal/utils/pdf-convertor.go:29 | distinct pages get distinct file names and distinct paths in the output directory |
| PdfConvertor.PagePathsOrdered | internal/utils/pdf-convertor.go:29 | below 1000, page `n`'s path sorts before page `m`'s whenever `n < m` |
| PdfConvertor.LexicalOrderPast1000 | internal/utils/pdf-convertor.go:29 | `page_1000.jpeg` sorts before `page_101.jpeg`, so from 1001 pages on (once `page_1000.jpeg` exists) the walk order is not the page order |
| PdfConvertor.PagePathIsJpeg | internal/utils/pdf-convertor.go:29 | every page path has extension `.jpeg`, which announces JPEG |
| PdfConvertor.FailureIsFinal | internal/utils/pdf-convertor.go:25-39 | once a page fails, no later page is attempted and nothing more is written |
| PdfConvertor.RenderAllGood | internal/utils/pdf-convertor.go:24-42 | while every page succeeds, one PNG file per page is written, in increasing page order |
| PdfConvertor.RenderFirstFailure | internal/utils/pdf-convertor.go:25-39 | the first failing page ends the loop with its own error: its render error, else its file-creation error, else its encoder error (`PageError`); the earlier pages' files stay, plus the failing page's own file when it was created before encoding failed |
| PdfConvertor.FirstFailingPage | internal/utils/pdf-convertor.go:24 | pages are tried in increasing order, so if some page fails there is a first failing one |
| PdfConvertor.ConvertOpenFailure | internal/utils/pdf-convertor.go:15-18 | if the document cannot be opened, the result is `(0, err)` and no file is written |
| PdfConvertor.ConvertFirstFailure | internal/utils/pdf-convertor.go:24-39 | when page `f` is the first to fail, the result is count 0 and that page's own error, with the earlier pages' files and the failing page's file when it was created |
| PdfConvertor.ConvertSuccess | internal/utils/pdf-convertor.go:14-44 | the conversion succeeds exactly when the document opens and every page succeeds; then the count is the page count and file `n` is the PNG of page `n` at `page_<n>.jpeg` |
| PdfConvertor.ConvertFailureCount | internal/utils/pdf-convertor.go:15-39 | every failure returns count 0 |
| PdfConvertor.ConvertPdfToImg | internal/utils/pdf-convertor.go:14-44 | the count, error and files left are those of `Convert` |
| PdfConvertor.FilesArePngNamedJpeg | internal/utils/pdf-convertor.go:29-36 | every file left behind is named `.jpeg` yet any image in it is PNG-encoded |
| PdfConvertor.StepFiles | internal/utils/pdf-convertor.go:25-41 | one iteration adds at most the file of its own page, and exactly that file when it succeeds |
| PdfConvertor.FilesOfPrefix | internal/utils/pdf-convertor.go:24-42 | file `i` written by the loop belongs to page `i` and holds PNG data if any |
| PdfConvertor.ProgressLength | internal/utils/pdf-convertor.go:24-42 | a loop still running after `k` pages has written exactly `k` files, and never more than `k` |
| Rag.DecodeGetResults | cmd/rag/rag.go:163-190 | the result is `Decode` of the response: the shape checks in order, then the hit texts or the first hit's error, with no partial output |
| Rag.DecodeShapeErrors | cmd/rag/rag.go:164-175 | a missing `Get`, a non-map `Get`, and a missing or non-list `Document` each give their own error |
| Rag.DecodeHitsOk | cmd/rag/rag.go:177-189 | the hits decode exactly when every one is a map with a string `text`; then there is one text per hit, in order |
| Rag.DecodeHitsFirstError | cmd/rag/rag.go:178-186 | the first hit that is not a map or lacks a string `text` decides the error |
| Rag.DecodeSuccess | cmd/rag/rag.go:163-190 | decoding succeeds exactly for a well-shaped response whose hits all carry string texts; it yields one text per hit, in order, and an empty list yields no texts |
| Rag.TextPartsOk | cmd/rag/rag.go:132-139 | the parts gather exactly when all are text; then there is one string per part, in order |
| Rag.TextPartsFirstError | cmd/rag/rag.go:135-137 | the first non-text part decides the error, which shows it |
| Rag.CandidateCount | cmd/rag/rag.go:127-129 | any candidate count but one is an error that reports the count |
| Rag.AnswerFromParts | cmd/rag/rag.go:132-140 | with one candidate, the answer is its text parts joined by newlines, in order; one non-text part makes the call fail |
| Rag.AnswerSplitsIntoParts | cmd/rag/rag.go:140 | when no part holds a newline, splitting the answer on newlines gives the parts back |
| Rag.GenerateAskedWithPrompt | cmd/rag/rag.go:89-124 | the model is consulted only when retrieval succeeds, and then only its reply to `Prompt(query, texts)` decides the answer; a retrieval error is the answer whatever the model would have said |
| Rag.GenerateRagResponse | cmd/rag/rag.go:89-141 | the result is `RagAnswer`: embed, search and decode errors pass through unchanged, then the prompt is sent and the reply is read |
| Rag.ReadReply | cmd/rag/rag.go:121-140 | the reply becomes an error for a failed call, a wrong candidate count or a non-text part, else the text parts joined by newlines |
| Rag.EmbedDocuments | cmd/rag/rag.go:56-87 | the batch holds one `"hellp"` per page; an embedding error is fatal with the logged message; too few embeddings panic; otherwise object `i` is class `Document` with page `i`'s text and embedding `i`, and a store error is swallowed |
| RagPrompt.BuildPrompt | cmd/rag/rag.go:118 | the prompt built by `Sprintf` is `Prompt`: the template head, the literal query, the context heading and the retrieved texts joined by newlines |
| RagPrompt.PromptLayout | cmd/rag/rag.go:143-161 | filling the template puts the query verbatim in the first slot, even if it holds `%s`, and the joined texts in the second |
| RagPrompt.TemplateTextHasNoVerbs | cmd/rag/rag.go:143-161 | the template has no `%` outside its two `%s` slots |
| Shell.Classify | main.go:39-48 | a line is a `bye` exactly when it trims to `bye` in any case; it is blank exactly when it is not a bye and trims to empty; otherwise the query is the trimmed non-empty line |
| Shell.FirstBye | main.go:42-45 | the index of the first bye line: no earlier line is a bye, and the line there is one |
| Shell.KeptTrimmed | main.go:39-48 | every kept line is trimmed and not blank |
| Shell.ForwardedBeforeBye | main.go:34-51 | the forwarded queries are exactly the non-blank trimmed lines before the first bye line, in input order |
| Shell.ForwardedQueries | main.go:39-51 | no forwarded query is blank, untrimmed or a `bye`, and there are no more of them than lines before the first bye |
| Shell.AfterBye | main.go:42-45 | lines after a bye line are never forwarded |
| Shell.ByeAnyCase | main.go:39-48 | for `skills?`, blank, `  BYE `, `education?`, only `skills?` is forwarded |
| Shell.ByeLine | main.go:39-42 | `"  BYE "` trims to `BYE`, which is a bye |
| Shell.LineStep | main.go:39-48 | for a line read before any bye: if it trims to `bye` in any case it is the first bye; otherwise the first bye is later and the queries grow by the trimmed line unless it is blank |
| Shell.ForwardedCons | main.go:39-51 | a line that is not a bye adds to the forwarded queries exactly what the reference filter keeps of it |
| Shell.RepliesAt | main.go:51 | in the recorded replies, reply `j` is the answer to query `j` |
| Shell.RunShell | main.go:30-60 | the queries sent are `Forwarded(lines)`; each reply is that query's `GenerateRagResponse` result, errors included, and the loop goes on after one; the loop ends with `bye` exactly when there is a bye line |
| Strings.TrimShape | cmd/parseResume/resume.go:26 | `strings.Trim` keeps the slice between the first and last characters outside the cut set, and gives empty exactly when every character is in it |
| Strings.TrimIdempotent | main.go:39 | trimming an already trimmed line changes nothing |
| Strings.LeadingCutShape | main.go:39 | the leading cut is the longest prefix of cut characters |
| Strings.TrailingCutShape | main.go:39 | the trailing cut is the longest suffix of cut characters |
| Strings.ToLowerAt | cmd/parseResume/resume.go:59 | `strings.ToLower` lower-cases character by character and keeps the length |
| Strings.EqualFoldLower | main.go:42 | `strings.EqualFold` holds exactly when both strings lower-case to the same string |
| Strings.EqualFoldAt | main.go:42 | `strings.EqualFold` holds exactly when the lengths match and every position holds the same letter up to case |
| Strings.JoinLength | cmd/rag/rag.go:140 | the length of `strings.Join`'s output is the elements' lengths plus one separator between each pair of neighbours |
| Strings.JoinAppend | cmd/rag/rag.go:140 | joining two non-empty lists in sequence is joining each, with one separator between them: the elements in order, one separator between neighbours and nothing else |
| Strings.SplitJoin | cmd/rag/rag.go:140 | splitting a joined list whose elements have no separator gives the list back |
| Strings.Decimal | cmd/rag/rag.go:128 | `%d` of a natural number prints at least one digit and nothing but digits, and starts with `0` only for 0 itself, so it has no leading zeros |
| Strings.DecimalValue | cmd/rag/rag.go:128 | the printed digits denote the number |
| Strings.ZeroPad | internal/utils/pdf-convertor.go:29 | `%03d` pads with zeros to at least three digits and keeps a longer number whole |
| Strings.ZeroPadValue | internal/utils/pdf-convertor.go:29 | the zero-padded digits still denote the number |
| Strings.ZeroPadInjective | internal/utils/pdf-convertor.go:29 | distinct numbers never share a zero-padded rendering |
| Strings.ThreeDigits | internal/utils/pdf-convertor.go:29 | below 1000, `%03d` prints exactly three digits, most significant first |
| Strings.ZeroPadOrder | internal/utils/pdf-convertor.go:29 | below 1000, lexical order of `%03d` renderings, followed by anything, is numeric order |
| Strings.LessAsymmetric | cmd/parseResume/resume.go:84 | the lexical order that sorts a directory is asymmetric |
| Strings.LessTotal | cmd/parseResume/resume.go:84 | any two different strings are ordered one way or the other |
| Strings.LessPrefix | cmd/parseResume/resume.go:84 | a common prefix does not change the lexical order |
| Strings.SortOrderedPermutation | cmd/parseResume/resume.go:84 | the sorted entries are in non-decreasing lexical order and are a permutation of the input |
| Strings.SortIncreasing | cmd/parseResume/resume.go:84 | names already in strictly increasing order keep their places |
| Strings.SprintfLiteral | cmd/rag/rag.go:118 | `fmt.Sprintf` copies literal text without `%` as it is |
| Strings.TwoSlots | cmd/rag/rag.go:118 | a two-`%s` format with no other `%` puts each argument verbatim in its slot |
| Paths.Ext | cmd/parseResume/resume.go:59 | `filepath.Ext` is a suffix of the path inside its last element that starts at its last `.`, or empty when that element has no `.` |
| Paths.LastElementStart | cmd/parseResume/resume.go:59 | the last path element begins just after the last separator, or at 0 |
| Paths.ExtOfEnding | cmd/parseResume/resume.go:59 | a path ending in `.` and then characters that are neither `.` nor `/` has that ending as its extension |
| Paths.JoinOrder | internal/utils/pdf-convertor.go:29 | names joined to the same directory keep their lexical order |
| Paths.JoinEndsWithName | internal/utils/pdf-convertor.go:29 | `filepath.Join(dir, name)` ends with the name |

## Left out

- The OCR engine, go-fitz rendering and the PNG encoder are oracles. Of a
  bounding box only the word is kept; its geometry and confidence are never
  read. `client.Close` and `doc.Close` are left out.
- File-system effects are not modelled. `os.MkdirTemp` is a given result.
  `os.Create` is an oracle, `f.Close` and `os.RemoveAll` are left out, and a
  created file is a path with its content.
- `filepath.Walk` is modelled as what it visits. The new temporary directory
  is taken to hold exactly the files the conversion wrote. The walk visits the
  directory, then those files sorted by path, which in one directory is the
  order of their names. File sizes come from the oracle `Env.size`.
- Resume.PdfPageCount: assumes that every page file the conversion wrote is
  non-empty, because sizes come from the file system. Its page-order clause
  holds only up to 1000 pages. From 1001 pages on (once `page_1000.jpeg`
  exists), lexical order puts `page_1000.jpeg` before `page_101.jpeg`
  (`PdfConvertor.LexicalOrderPast1000`), so OCR page numbers no longer follow
  the PDF pages.
- `filepath.Walk`'s error return (resume.go:93-95) is left out. The callback
  always returns nil, so that branch is unreachable. Walk passes the callback
  a nil file info whenever it cannot `lstat` a path: the root, or any entry
  of a directory it reads. The callback would then panic on `info.Mode()`;
  that panic is left out.
- Each oracle is one fixed function for the whole run: `Env.ocr`, `Env.size`
  and the `Services` fields `embedQuery`, `search` and `generate`. So in
  `Shell.RunShell` a question asked twice gets the same reply, while the real
  generative model need not answer the same way twice.
- `fileName` in `extractPageData` only feeds the `MkdirTemp` name pattern, so
  it is left out with the directory name.
- The Weaviate and Gemini clients, `combinedWeaviateError`, `RagInit`, the API
  key and the environment are outside the model. Embedding, search and
  generation are oracles returning a value or an error. The search is the
  three-nearest, text-field-only query of rag.go:101-110, and its JSON
  answer is a `Value`.
- Printing with `log` and `fmt` is left out. This covers the answer and
  error printing in main.go:53 and 58. `log.Fatal` in `EmbedDocuments` is
  the terminal outcome `Fatal`, and the index panic on too few embeddings is
  `IndexPanic`.
- `ProcessResume` is outside the model. It reads `os.Args`, and main.go:21
  uses a result it does not return. The hand-off from pages to
  `EmbedDocuments` is therefore a parameter.
- The standard input scanner is the sequence of lines it yields; read errors
  count as end of input.
- Strings.TrimSpace: only the ASCII white space, NEL and NO-BREAK SPACE are
  trimmed, not the other Unicode space characters.
- Strings.ToLower and Strings.EqualFold fold ASCII letters only, not full
  Unicode case folding. That is enough for `bye` and the extension literals.
- Strings.Sprintf: `%s` is the only verb. Extra arguments, which Go reports
  as `%!(EXTRA …)`, are not modelled; the one call site passes exactly two.
- Paths.Ext and Paths.Join: only `/` separates path elements, as on Unix.
  On Windows Go's `filepath` also treats `\` as a separator and keeps volume
  names apart; that is not modelled.
- Strings.Less compares code points. For UTF-8 text this is the same as Go's
  byte-wise string order.
- Paths.Join: the result is not cleaned of `.`, `..` or doubled separators,
  and is exact only for a name without separators, as here.
- Embeddings are sequences of `real` rather than float32.
- A candidate with nil content would panic at rag.go:133; this is not
  modelled, and a candidate always has a part list.
- Vectors the store returns are not compared; only the `text` fields of the
  hits matter here.
