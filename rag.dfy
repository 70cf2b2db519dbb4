/** The retrieval-augmented-generation client: storing page texts with their
    embeddings, and answering a query from the three nearest stored texts.
    The embedding model, the vector store and the generative model are
    oracles; their answers are inputs. */
module Rag {
  import opened Wrappers
  import Strings
  import Resume
  import RagPrompt

  // ---------------------------------------------------------------------
  // Decoding the vector-store answer
  // ---------------------------------------------------------------------

  /** A decoded JSON value as Go type assertions see it: an object, an
      array, a string, or anything else (numbers, booleans, null). */
  datatype Value = Object(fields: map<string, Value>) | Array(items: seq<Value>) | Str(s: string) | Other

  const GetMissing: string := "get key not found in result"
  const GetNotObject: string := "get key unexpected type"
  const DocumentNotList: string := "document is not a list of results"
  const ElementNotObject: string := "invalid element in list of documents"
  const TextNotString: string := "expected string in list of documents"

  /** The `text` of one search hit. */
  function TextOf(v: Value): Result<string> {
    if !v.Object? then Err(ElementNotObject)
    else if "text" in v.fields && v.fields["text"].Str? then Ok(v.fields["text"].s)
    else Err(TextNotString)
  }

  /** The texts of the hits, or the error of the first malformed one. */
  function DecodeHits(items: seq<Value>): Result<seq<string>> {
    if items == [] then Ok([])
    else match TextOf(items[0])
      case Err(e) => Err(e)
      case Ok(t) =>
        match DecodeHits(items[1..])
        case Err(e) => Err(e)
        case Ok(rest) => Ok([t] + rest)
  }

  /** The response has the shape `Get -> Document -> [ ... ]`. */
  predicate HasHitList(data: map<string, Value>) {
    "Get" in data && data["Get"].Object? &&
    "Document" in data["Get"].fields && data["Get"].fields["Document"].Array?
  }

  function Hits(data: map<string, Value>): seq<Value>
    requires HasHitList(data)
  {
    data["Get"].fields["Document"].items
  }

  /** What `decodeGetResults` returns for the response data `data`. */
  function Decode(data: map<string, Value>): Result<seq<string>> {
    if "Get" !in data then Err(GetMissing)
    else if !data["Get"].Object? then Err(GetNotObject)
    else if !HasHitList(data) then Err(DocumentNotList)
    else DecodeHits(Hits(data))
  }

  /** The hits decode exactly when every one is an object whose `text` is a
      string; then there is one text per hit, in order. */
  lemma {:induction false} DecodeHitsOk(items: seq<Value>)
    ensures DecodeHits(items).Ok? <==> forall j :: 0 <= j < |items| ==> TextOf(items[j]).Ok?
    ensures DecodeHits(items).Ok? ==>
      |DecodeHits(items).value| == |items| &&
      forall j :: 0 <= j < |items| ==> DecodeHits(items).value[j] == TextOf(items[j]).value
  {
    if items != [] {
      DecodeHitsOk(items[1..]);
      assert forall j :: 1 <= j < |items| ==> items[j] == items[1..][j - 1];
    }
  }

  /** The first malformed hit decides the error. */
  lemma {:induction false} DecodeHitsFirstError(items: seq<Value>, f: nat)
    requires f < |items| && TextOf(items[f]).Err?
    requires forall j :: 0 <= j < f ==> TextOf(items[j]).Ok?
    ensures DecodeHits(items) == Err(TextOf(items[f]).msg)
  {
    if f > 0 {
      DecodeHitsFirstError(items[1..], f - 1);
    }
  }

  /** The shape errors, in the order they are tested. */
  lemma DecodeShapeErrors(data: map<string, Value>)
    ensures "Get" !in data ==> Decode(data) == Err(GetMissing)
    ensures "Get" in data && !data["Get"].Object? ==> Decode(data) == Err(GetNotObject)
    ensures "Get" in data && data["Get"].Object? && !HasHitList(data) ==> Decode(data) == Err(DocumentNotList)
  {
  }

  /** Decoding succeeds exactly for a well-shaped response whose hits all
      carry string texts; it then yields those texts in order, and an empty
      hit list yields no texts. */
  lemma DecodeSuccess(data: map<string, Value>)
    ensures Decode(data).Ok? <==>
      HasHitList(data) && forall j :: 0 <= j < |Hits(data)| ==> TextOf(Hits(data)[j]).Ok?
    ensures Decode(data).Ok? ==>
      |Decode(data).value| == |Hits(data)| &&
      forall j :: 0 <= j < |Hits(data)| ==> Decode(data).value[j] == Hits(data)[j].fields["text"].s
    ensures HasHitList(data) && Hits(data) == [] ==> Decode(data) == Ok([])
  {
    if HasHitList(data) {
      DecodeHitsOk(Hits(data));
    }
  }

  /** `decodeGetResults`: checks the shape, then appends the hit texts one by
      one, returning no partial output at the first malformed hit. */
  method DecodeGetResults(data: map<string, Value>) returns (r: Result<seq<string>>)
    ensures r == Decode(data)
  {
    if "Get" !in data {
      return Err(GetMissing);
    }
    var doc := data["Get"];
    if !doc.Object? {
      return Err(GetNotObject);
    }
    if "Document" !in doc.fields || !doc.fields["Document"].Array? {
      return Err(DocumentNotList);
    }
    var slc := doc.fields["Document"].items;
    var out: seq<string> := [];
    for k := 0 to |slc|
      invariant |out| == k
      invariant forall j :: 0 <= j < k ==> TextOf(slc[j]).Ok? && out[j] == TextOf(slc[j]).value
    {
      var s := slc[k];
      if !s.Object? {
        DecodeHitsFirstError(slc, k);
        return Err(ElementNotObject);
      }
      if "text" !in s.fields || !s.fields["text"].Str? {
        DecodeHitsFirstError(slc, k);
        return Err(TextNotString);
      }
      out := out + [s.fields["text"].s];
    }
    DecodeHitsOk(slc);
    assert out == DecodeHits(slc).value;
    return Ok(out);
  }

  // ---------------------------------------------------------------------
  // Generating the answer
  // ---------------------------------------------------------------------

  type Vector = seq<real>

  /** A part of a candidate's content: text, or some other kind of part,
      given by how `%v` prints it. */
  datatype Part = Text(text: string) | NonText(shown: string)

  datatype Candidate = Candidate(parts: seq<Part>)

  datatype GenResponse = GenResponse(candidates: seq<Candidate>)

  /** The collaborators of `GenerateRagResponse`. */
  datatype Services = Services(
    embedQuery: string -> Result<Vector>,              // EmbedContent
    search: Vector -> Result<map<string, Value>>,      // nearest-vector search, top 3, text field only
    generate: string -> Result<GenResponse>)           // GenerateContent

  function CandidateCountError(n: nat): string {
    "got " + Strings.Decimal(n) + " candidates, expected 1"
  }

  /** The texts of the parts, or the error of the first part that is not text. */
  function TextParts(parts: seq<Part>): Result<seq<string>> {
    if parts == [] then Ok([])
    else match parts[0]
      case NonText(shown) => Err("bad type of part: " + shown)
      case Text(t) =>
        match TextParts(parts[1..])
        case Err(e) => Err(e)
        case Ok(rest) => Ok([t] + rest)
  }

  lemma {:induction false} TextPartsOk(parts: seq<Part>)
    ensures TextParts(parts).Ok? <==> forall j :: 0 <= j < |parts| ==> parts[j].Text?
    ensures TextParts(parts).Ok? ==>
      |TextParts(parts).value| == |parts| &&
      forall j :: 0 <= j < |parts| ==> TextParts(parts).value[j] == parts[j].text
  {
    if parts != [] {
      TextPartsOk(parts[1..]);
      assert forall j :: 1 <= j < |parts| ==> parts[j] == parts[1..][j - 1];
    }
  }

  lemma {:induction false} TextPartsFirstError(parts: seq<Part>, f: nat)
    requires f < |parts| && parts[f].NonText?
    requires forall j :: 0 <= j < f ==> parts[j].Text?
    ensures TextParts(parts) == Err("bad type of part: " + parts[f].shown)
  {
    if f > 0 {
      TextPartsFirstError(parts[1..], f - 1);
    }
  }

  /** The retrieved texts for `query`: embed it, search, decode. */
  function Retrieved(s: Services, query: string): Result<seq<string>> {
    match s.embedQuery(query)
    case Err(e) => Err(e)
    case Ok(vec) =>
      match s.search(vec)
      case Err(e) => Err(e)
      case Ok(data) => Decode(data)
  }

  /** What the generative model's reply becomes. */
  function Answer(reply: Result<GenResponse>): Result<string> {
    match reply
    case Err(e) => Err("calling generative model: " + e)
    case Ok(resp) =>
      if |resp.candidates| != 1 then Err(CandidateCountError(|resp.candidates|))
      else
        match TextParts(resp.candidates[0].parts)
        case Err(e) => Err(e)
        case Ok(texts) => Ok(Strings.Join(texts, "\n"))
  }

  /** What `GenerateRagResponse(query)` returns. */
  function RagAnswer(s: Services, query: string): Result<string> {
    match Retrieved(s, query)
    case Err(e) => Err(e)
    case Ok(contents) => Answer(s.generate(RagPrompt.Prompt(query, contents)))
  }

  /** Anything but exactly one candidate is an error that reports the count. */
  lemma CandidateCount(resp: GenResponse)
    requires |resp.candidates| != 1
    ensures Answer(Ok(resp)) == Err(CandidateCountError(|resp.candidates|))
  {
  }

  /** With one candidate, the answer is its text parts joined by newlines,
      in order; a single non-text part makes the whole call fail. */
  lemma AnswerFromParts(c: Candidate)
    ensures Answer(Ok(GenResponse([c]))).Ok? <==> forall j :: 0 <= j < |c.parts| ==> c.parts[j].Text?
    ensures Answer(Ok(GenResponse([c]))).Ok? ==>
      Answer(Ok(GenResponse([c]))).value == Strings.Join(TextParts(c.parts).value, "\n") &&
      |TextParts(c.parts).value| == |c.parts| &&
      forall j :: 0 <= j < |c.parts| ==> TextParts(c.parts).value[j] == c.parts[j].text
  {
    TextPartsOk(c.parts);
  }

  /** When no text part holds a newline, the answer splits back into the
      parts. */
  lemma AnswerSplitsIntoParts(c: Candidate)
    requires c.parts != []
    requires forall j :: 0 <= j < |c.parts| ==> c.parts[j].Text? && '\n' !in c.parts[j].text
    ensures Answer(Ok(GenResponse([c]))).Ok?
    ensures Strings.Split(Answer(Ok(GenResponse([c]))).value, '\n') == TextParts(c.parts).value
  {
    TextPartsOk(c.parts);
    Strings.SplitJoin(TextParts(c.parts).value, '\n');
  }

  /** The generative model is consulted only after the texts are retrieved,
      and then only its reply to the prompt built from the literal query and
      those texts decides the answer. When retrieval fails, its error is the
      answer, whatever the model would have said. */
  lemma GenerateAskedWithPrompt(s: Services, s': Services, query: string)
    requires s.embedQuery == s'.embedQuery && s.search == s'.search
    requires Retrieved(s, query).Ok? ==>
      s.generate(RagPrompt.Prompt(query, Retrieved(s, query).value)) ==
      s'.generate(RagPrompt.Prompt(query, Retrieved(s, query).value))
    ensures RagAnswer(s, query) == RagAnswer(s', query)
    ensures Retrieved(s, query).Err? ==> RagAnswer(s, query) == Err(Retrieved(s, query).msg)
  {
  }

  /** `GenerateRagResponse`. */
  method GenerateRagResponse(s: Services, query: string) returns (r: Result<string>)
    ensures r == RagAnswer(s, query)
  {
    var rsp := s.embedQuery(query);
    if rsp.Err? {
      return Err(rsp.msg);
    }
    var result := s.search(rsp.value);
    if result.Err? {
      return Err(result.msg);
    }
    var contents := DecodeGetResults(result.value);
    if contents.Err? {
      return Err(contents.msg);
    }
    var ragQuery := RagPrompt.BuildPrompt(query, contents.value);
    var resp := s.generate(ragQuery);
    r := ReadReply(resp);
  }

  /** The second half of `GenerateRagResponse`: what it makes of the
      generative model's reply. */
  method ReadReply(resp: Result<GenResponse>) returns (r: Result<string>)
    ensures r == Answer(resp)
  {
    if resp.Err? {
      return Err("calling generative model: " + resp.msg);
    }
    var candidates := resp.value.candidates;
    if |candidates| != 1 {
      return Err(CandidateCountError(|candidates|));
    }
    var parts := candidates[0].parts;
    var respTexts: seq<string> := [];
    for k := 0 to |parts|
      invariant |respTexts| == k
      invariant forall j :: 0 <= j < k ==> parts[j].Text? && respTexts[j] == parts[j].text
    {
      var part := parts[k];
      if part.NonText? {
        TextPartsFirstError(parts, k);
        return Err("bad type of part: " + part.shown);
      }
      respTexts := respTexts + [part.text];
    }
    TextPartsOk(parts);
    assert respTexts == TextParts(parts).value;
    return Ok(Strings.Join(respTexts, "\n"));
  }

  // ---------------------------------------------------------------------
  // Indexing the pages
  // ---------------------------------------------------------------------

  /** A vector-store object: its class, its `text` property and its vector. */
  datatype StoreObject = StoreObject(className: string, text: string, vector: Vector)

  /** The collaborators of `EmbedDocuments`. */
  datatype Indexer = Indexer(
    embedBatch: seq<string> -> Result<seq<Vector>>,   // BatchEmbedContents: one vector per request, in order
    store: seq<StoreObject> -> Outcome)               // the batched write

  /** How `EmbedDocuments` ends: it returns after sending `objects` to the
      store, or the process stops in `log.Fatal` or on an index panic. */
  datatype Indexing = Indexed(objects: seq<StoreObject>) | Fatal(msg: string) | IndexPanic

  const BatchFiller: string := "hellp"

  /** `EmbedDocuments`: `batch` is the embedding request it sends. */
  method EmbedDocuments(pages: seq<Resume.Page>, ix: Indexer) returns (batch: seq<string>, run: Indexing)
    ensures |batch| == |pages| && forall i :: 0 <= i < |batch| ==> batch[i] == BatchFiller
    ensures ix.embedBatch(batch).Err? ==> run == Fatal("Embed error bathc :: " + ix.embedBatch(batch).msg)
    ensures ix.embedBatch(batch).Ok? && |ix.embedBatch(batch).value| < |pages| ==> run == IndexPanic
    ensures ix.embedBatch(batch).Ok? && |ix.embedBatch(batch).value| >= |pages| ==>
      run.Indexed? && |run.objects| == |pages| &&
      forall i :: 0 <= i < |pages| ==>
        run.objects[i] == StoreObject("Document", Resume.WordsText(pages[i].words), ix.embedBatch(batch).value[i])
  {
    batch := [];
    for k := 0 to |pages|
      invariant |batch| == k && forall i :: 0 <= i < k ==> batch[i] == BatchFiller
    {
      batch := batch + [BatchFiller];
    }
    var rsp := ix.embedBatch(batch);
    if rsp.Err? {
      return batch, Fatal("Embed error bathc :: " + rsp.msg);
    }
    var objects := new StoreObject[|pages|];
    for i := 0 to |pages|
      invariant i <= |rsp.value|
      invariant forall j :: 0 <= j < i ==>
        objects[j] == StoreObject("Document", Resume.WordsText(pages[j].words), rsp.value[j])
    {
      var text := pages[i].String();
      if i >= |rsp.value| {
        return batch, IndexPanic;
      }
      objects[i] := StoreObject("Document", text, rsp.value[i]);
    }
    var stored := objects[..];
    assert forall j :: 0 <= j < |pages| ==>
      stored[j] == StoreObject("Document", Resume.WordsText(pages[j].words), rsp.value[j]);
    var written := ix.store(stored);
    if written.Fail? {
      return batch, Indexed(stored);
    }
    return batch, Indexed(stored);
  }
}
