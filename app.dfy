/**
 * The web layer of app/main.py that has logic of its own: the in-memory
 * document store, the way a route resolves the text it works on, and the
 * merge of a language-model what-if reply with the request's hypotheticals.
 */
module App {
  import opened Wrappers
  import opened Strings
  import opened Summarizer
  import opened WhatIf
  import opened Reply

  /** What the store keeps per document. */
  datatype Record = Record(filename: string, contentType: string, text: string, numChars: nat)

  /** The `KeyError` of `DocumentStore.get`. */
  datatype StoreError = NotFound

  /** An `HTTPException`: a status code and its detail message. */
  datatype HttpError = HttpError(status: nat, detail: string)

  /** The record stored for `text`: its character count is the length of the text. */
  function MakeRecord(filename: string, contentType: string, text: string): (r: Record)
    ensures r.filename == filename && r.contentType == contentType
    ensures r.text == text && r.numChars == |r.text|
  {
    Record(filename, contentType, text, |text|)
  }

  /** A store whose every record counts its own characters. */
  ghost predicate WellCounted(docs: map<string, Record>) {
    forall id :: id in docs ==> docs[id].numChars == |docs[id].text|
  }

  /** `DocumentStore.get` on the map `docs`: the record, or `NotFound` for an unknown id. */
  function Lookup(docs: map<string, Record>, docId: string): (r: Result<Record, StoreError>)
    ensures r.Ok? <==> docId in docs
    ensures r.Ok? ==> r.value == docs[docId]
  {
    if docId in docs then Ok(docs[docId]) else Err(NotFound)
  }

  /** After storing a record under an id, looking that id up finds the record and every other id is unaffected. */
  lemma LookupAfterStore(docs: map<string, Record>, docId: string, rec: Record, other: string)
    ensures Lookup(docs[docId := rec], docId) == Ok(rec)
    ensures other != docId ==> Lookup(docs[docId := rec], other) == Lookup(docs, other)
  {
  }

  /** Storing a record made by `MakeRecord` keeps every character count right. */
  lemma StoreKeepsCounts(docs: map<string, Record>, docId: string, filename: string, contentType: string, text: string)
    requires WellCounted(docs)
    ensures WellCounted(docs[docId := MakeRecord(filename, contentType, text)])
  {
  }

  /** `DocumentStore`: documents by id. The fresh id `uuid4` would draw is a parameter of `Add`. */
  class DocumentStore {
    var docs: map<string, Record>

    ghost predicate Valid()
      reads this
    {
      WellCounted(docs)
    }

    constructor()
      ensures docs == map[]
      ensures Valid()
    {
      docs := map[];
    }

    /** `add`: store the record under `docId`, replacing any record already there, and return the id. */
    method Add(docId: string, filename: string, contentType: string, text: string) returns (id: string)
      requires Valid()
      modifies this
      ensures id == docId
      ensures docs == old(docs)[docId := MakeRecord(filename, contentType, text)]
      ensures Valid()
    {
      StoreKeepsCounts(docs, docId, filename, contentType, text);
      docs := docs[docId := MakeRecord(filename, contentType, text)];
      id := docId;
    }

    /** `get`: the stored record, or `NotFound`. */
    method Get(docId: string) returns (r: Result<Record, StoreError>)
      requires Valid()
      ensures r == Lookup(docs, docId)
      ensures r.Ok? <==> docId in docs
      ensures r.Ok? ==> r.value.numChars == |r.value.text|
    {
      if docId in docs {
        r := Ok(docs[docId]);
      } else {
        r := Err(NotFound);
      }
    }
  }

  /** Python truthiness of an optional string: `None` and `""` are false. */
  predicate Given(s: Option<string>) {
    s.Some? && s.value != ""
  }

  const NOT_FOUND := HttpError(404, "Document not found")
  const NO_TEXT := HttpError(400, "Provide text or document_id")
  const NO_HYPOTHETICALS := HttpError(400, "Provide at least one hypothetical")

  /**
   * How `/summarize` and `/whatif` find their text: the request's text when
   * given, otherwise the text of the stored document.
   */
  function ResolveText(text: Option<string>, documentId: Option<string>, docs: map<string, Record>): (r: Result<string, HttpError>)
    ensures r.Ok? ==> r.value != ""
    ensures Given(text) ==> r == Ok(text.value)
    ensures r == Err(NOT_FOUND) <==> !Given(text) && Given(documentId) && documentId.value !in docs
    ensures r.Ok? && !Given(text) ==> Given(documentId) && documentId.value in docs && r.value == docs[documentId.value].text
    ensures !Given(text) && Given(documentId) && documentId.value in docs && docs[documentId.value].text != "" ==>
      r == Ok(docs[documentId.value].text)
    ensures r == Err(NO_TEXT) <==>
      !Given(text) && (!Given(documentId) || (documentId.value in docs && docs[documentId.value].text == ""))
    ensures r.Err? ==> r.error == NOT_FOUND || r.error == NO_TEXT
  {
    if !Given(text) && Given(documentId) then
      match Lookup(docs, documentId.value)
      case Err(_) => Err(NOT_FOUND)
      case Ok(doc) => if doc.text == "" then Err(NO_TEXT) else Ok(doc.text)
    else if !Given(text) then Err(NO_TEXT)
    else Ok(text.value)
  }

  /** A document stored with non-empty text is what a request giving its id and no text works on. */
  lemma ResolveStoredDocument(docs: map<string, Record>, docId: string, filename: string, contentType: string, text: string,
                              request: Option<string>)
    requires docId != "" && text != "" && !Given(request)
    ensures ResolveText(request, Some(docId), docs[docId := MakeRecord(filename, contentType, text)]) == Ok(text)
  {
  }

  /**
   * The merge in `/whatif`: one item per hypothetical, taking the analysis of
   * the reply item at the same position, or of the last one when the reply
   * has fewer items. With no reply items the indexing fails and there is no
   * merge.
   */
  function Align(hyps: seq<string>, items: seq<WhatIfItem>): (r: Option<seq<WhatIfItem>>)
    ensures r.None? <==> |items| == 0 && |hyps| > 0
    ensures r.Some? ==> |r.value| == |hyps|
    ensures r.Some? ==> forall i :: 0 <= i < |hyps| ==> r.value[i].hypothetical == hyps[i]
    ensures r.Some? ==> forall i :: 0 <= i < |hyps| && i < |items| ==> r.value[i].analysis == items[i].analysis
    ensures r.Some? ==> forall i :: |items| <= i < |hyps| ==> r.value[i].analysis == items[|items| - 1].analysis
  {
    if |items| == 0 && |hyps| > 0 then None
    else Some(seq(|hyps|, i requires 0 <= i < |hyps| =>
      WhatIfItem(hyps[i], if i < |items| then items[i].analysis else items[|items| - 1].analysis)))
  }

  /**
   * A parsed language-model reply always merges, and when no block of it
   * survived, every hypothetical gets the whole reply as its analysis.
   */
  lemma AlignParsedReply(out: string, hyps: seq<string>)
    requires |hyps| > 0
    ensures Align(hyps, ParsedItems(out, hyps)).Some?
    ensures KeptBlocks(Split(out, REPLY_SEPARATOR)) == [] ==>
      Align(hyps, ParsedItems(out, hyps)) == Some(ParsedItems(out, hyps))
  {
    var items := ParsedItems(out, hyps);
    if KeptBlocks(Split(out, REPLY_SEPARATOR)) == [] {
      var merged := Align(hyps, items).value;
      assert |merged| == |items|;
      forall i | 0 <= i < |hyps| ensures merged[i] == items[i] {
        assert items[i] == WhatIfItem(hyps[i], out);
      }
      assert merged == items;
    }
  }

  /**
   * `/whatif`: resolve the text, demand a hypothetical, then merge the
   * language-model reply when there is one (`reply` is `None` when the model
   * is not configured or its call failed) and fall back to the heuristic.
   * `tokenize` stands for the sentence tokenizer.
   */
  function WhatIfRoute(text: Option<string>, documentId: Option<string>, hyps: seq<string>,
                       docs: map<string, Record>, reply: Option<string>, tokenize: string -> seq<string>)
    : (r: Result<seq<WhatIfItem>, HttpError>)
    ensures r.Ok? ==> |r.value| == |hyps| && forall i :: 0 <= i < |hyps| ==> r.value[i].hypothetical == hyps[i]
    ensures r.Err? ==> r.error in {NOT_FOUND, NO_TEXT, NO_HYPOTHETICALS}
    ensures ResolveText(text, documentId, docs).Err? ==> r == Err(ResolveText(text, documentId, docs).error)
    ensures r == Err(NO_HYPOTHETICALS) <==> ResolveText(text, documentId, docs).Ok? && |hyps| == 0
  {
    match ResolveText(text, documentId, docs)
    case Err(e) => Err(e)
    case Ok(t) =>
      if |hyps| == 0 then Err(NO_HYPOTHETICALS)
      else
        var merged := if reply.Some? then Align(hyps, ParsedItems(reply.value, hyps)) else None;
        if merged.Some? then Ok(merged.value)
        else Ok(HeuristicItems(SentenceSplit(tokenize(t)), hyps))
  }

  /** With a reply from the model the route never falls back to the heuristic; without one it always does. */
  lemma WhatIfRouteSource(text: Option<string>, documentId: Option<string>, hyps: seq<string>,
                          docs: map<string, Record>, reply: Option<string>, tokenize: string -> seq<string>)
    requires ResolveText(text, documentId, docs).Ok? && |hyps| > 0
    ensures var t := ResolveText(text, documentId, docs).value;
      var r := WhatIfRoute(text, documentId, hyps, docs, reply, tokenize);
      && (reply.Some? ==> r == Ok(Align(hyps, ParsedItems(reply.value, hyps)).value))
      && (reply.None? ==> r == Ok(HeuristicItems(SentenceSplit(tokenize(t)), hyps)))
  {
    if reply.Some? {
      AlignParsedReply(reply.value, hyps);
    }
  }
}
