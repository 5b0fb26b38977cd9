/** `POST /chat` (backend/src/api/chat.py): the answer short-circuit when
    the search finds nothing, the source excerpts built from the search
    results, and the session id. The vector search and the answer generator
    are parameters that may fail with an error text; the fresh session id
    that `uuid4` would produce is a parameter too. */
module Chat {
  import opened Wrappers

  /** One search result as a dictionary: a key the dictionary lacks is `None`. */
  datatype SearchHit = SearchHit(
    text: Option<string>,
    sourceFile: Option<string>,
    sourceSection: Option<string>,
    score: Option<real>)

  /** One entry of the response's `sources`. */
  datatype Source = Source(text: string, sourceFile: string, sourceSection: string, score: real)

  /** `ChatResponse` without its `timestamp`. */
  datatype ChatResponse = ChatResponse(answer: string, sources: seq<Source>, sessionId: string, query: string)

  const NoContentAnswer := "I couldn't find any relevant content in the textbook to answer your question."

  const ExcerptLength := 200
  const Ellipsis := "..."

  function ChatError(e: string): HttpError {
    HttpError(500, "Error processing chat request: " + e)
  }

  /** The excerpt of a result's text: its first 200 characters followed by
      "..." when it is longer than that, the text itself otherwise. */
  function Excerpt(text: string): (r: string)
    ensures |text| <= ExcerptLength ==> r == text
    ensures |text| > ExcerptLength ==>
      |r| == ExcerptLength + |Ellipsis| && r[..ExcerptLength] == text[..ExcerptLength] && r[ExcerptLength..] == Ellipsis
  {
    if |text| > ExcerptLength then text[..ExcerptLength] + Ellipsis else text
  }

  /** An excerpt is never longer than 203 characters, and it starts with the
      text (all of it, or its first 200 characters). */
  lemma ExcerptBounded(text: string)
    ensures |Excerpt(text)| <= 203
    ensures var n := if |text| <= ExcerptLength then |text| else ExcerptLength;
      Excerpt(text)[..n] == text[..n]
  {
  }

  /** Taking the excerpt of an excerpt changes nothing. */
  lemma ExcerptIdempotent(text: string)
    ensures Excerpt(Excerpt(text)) == Excerpt(text)
  {
    var r := Excerpt(text);
    if |text| > ExcerptLength {
      assert r[..ExcerptLength] + Ellipsis == r;
    }
  }

  /** The source built from one result: the excerpt of its text, and `""`
      or `0.0` for a missing key. */
  function SourceOf(hit: SearchHit): (s: Source)
    ensures s.text == Excerpt(hit.text.GetOr(""))
    ensures s.sourceFile == (if hit.sourceFile.Some? then hit.sourceFile.value else "")
    ensures s.sourceSection == (if hit.sourceSection.Some? then hit.sourceSection.value else "")
    ensures s.score == (if hit.score.Some? then hit.score.value else 0.0)
  {
    Source(Excerpt(hit.text.GetOr("")), hit.sourceFile.GetOr(""), hit.sourceSection.GetOr(""), hit.score.GetOr(0.0))
  }

  /** The sources list: one source per result, in result order. */
  function Sources(hits: seq<SearchHit>): (sources: seq<Source>)
    ensures |sources| == |hits|
    ensures forall i :: 0 <= i < |hits| ==> sources[i] == SourceOf(hits[i])
  {
    seq(|hits|, i requires 0 <= i < |hits| => SourceOf(hits[i]))
  }

  /** The loop at lines 55-63. */
  method BuildSources(hits: seq<SearchHit>) returns (sources: seq<Source>)
    ensures sources == Sources(hits)
  {
    sources := [];
    for i := 0 to |hits|
      invariant |sources| == i
      invariant forall k :: 0 <= k < i ==> sources[k] == SourceOf(hits[k])
    {
      sources := sources + [SourceOf(hits[i])];
    }
  }

  /** `chat_request.session_id or str(uuid.uuid4())`: the id sent when it is
      a non-empty string, the fresh one otherwise. */
  function SessionId(requested: Option<string>, freshId: string): (id: string)
    ensures requested.Some? && requested.value != "" ==> id == requested.value
    ensures requested.None? || requested.value == "" ==> id == freshId
  {
    match requested
    case Some(s) => if s != "" then s else freshId
    case None => freshId
  }

  /** The outcome of `chat_endpoint` for a query: a search failure or an
      answer-generation failure becomes a 500. */
  function Chat(search: string -> Result<seq<SearchHit>, string>,
                generate: (string, seq<SearchHit>) -> Result<string, string>,
                query: string, requested: Option<string>, freshId: string): (r: Result<ChatResponse, HttpError>)
    ensures r.Success? ==>
      search(query).Success? && r.value.query == query && r.value.sessionId == SessionId(requested, freshId)
    ensures r.Failure? ==> r.error.status == 500
    ensures search(query).Failure? ==> r == Failure(ChatError(search(query).error))
    ensures search(query).Success? && search(query).value != [] ==>
      var generated := generate(query, search(query).value);
      && (generated.Failure? ==> r == Failure(ChatError(generated.error)))
      && (generated.Success? ==>
            r.Success? && r.value.answer == generated.value && r.value.sources == Sources(search(query).value))
  {
    var sessionId := SessionId(requested, freshId);
    match search(query)
    case Failure(e) => Failure(ChatError(e))
    case Success(hits) =>
      if hits == [] then Success(ChatResponse(NoContentAnswer, [], sessionId, query))
      else
        match generate(query, hits)
        case Failure(e) => Failure(ChatError(e))
        case Success(answer) => Success(ChatResponse(answer, Sources(hits), sessionId, query))
  }

  /** Lines 32-75 of `chat_endpoint`. */
  method ChatEndpoint(search: string -> Result<seq<SearchHit>, string>,
                      generate: (string, seq<SearchHit>) -> Result<string, string>,
                      query: string, requested: Option<string>, freshId: string)
    returns (r: Result<ChatResponse, HttpError>)
    ensures r == Chat(search, generate, query, requested, freshId)
  {
    var sessionId := SessionId(requested, freshId);
    var found := search(query);
    if found.Failure? {
      return Failure(ChatError(found.error));
    }
    var hits := found.value;
    if hits == [] {
      return Success(ChatResponse(NoContentAnswer, [], sessionId, query));
    }
    var generated := generate(query, hits);
    if generated.Failure? {
      return Failure(ChatError(generated.error));
    }
    var sources := BuildSources(hits);
    r := Success(ChatResponse(generated.value, sources, sessionId, query));
  }

  /** With no search results the fixed answer comes back with no sources, and
      the answer generator is not consulted: any two generators give the same
      response. */
  lemma NoResultsShortCircuit(search: string -> Result<seq<SearchHit>, string>,
                              generate: (string, seq<SearchHit>) -> Result<string, string>,
                              other: (string, seq<SearchHit>) -> Result<string, string>,
                              query: string, requested: Option<string>, freshId: string)
    requires search(query) == Success([])
    ensures Chat(search, generate, query, requested, freshId)
      == Success(ChatResponse(NoContentAnswer, [], SessionId(requested, freshId), query))
    ensures Chat(search, generate, query, requested, freshId) == Chat(search, other, query, requested, freshId)
  {
  }

  /** Every response that is not an error carries the session id chosen from
      the request, echoes the query, and has one source per search result, in
      order, each at most 203 characters of text. */
  lemma ResponseShape(search: string -> Result<seq<SearchHit>, string>,
                      generate: (string, seq<SearchHit>) -> Result<string, string>,
                      query: string, requested: Option<string>, freshId: string)
    requires Chat(search, generate, query, requested, freshId).Success?
    ensures var resp := Chat(search, generate, query, requested, freshId).value;
      && search(query).Success?
      && resp.sessionId == SessionId(requested, freshId)
      && resp.query == query
      && |resp.sources| == |search(query).value|
      && (forall i :: 0 <= i < |resp.sources| ==>
            resp.sources[i] == SourceOf(search(query).value[i]) && |resp.sources[i].text| <= 203)
  {
    var resp := Chat(search, generate, query, requested, freshId).value;
    forall i | 0 <= i < |resp.sources|
      ensures |resp.sources[i].text| <= 203
    {
      ExcerptBounded(search(query).value[i].text.GetOr(""));
    }
  }
}
