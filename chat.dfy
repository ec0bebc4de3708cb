/**
 * The `/chat` handler: the empty-message gate, then embed, query and ask
 * in that order, with the context built from the ranked documents. The
 * three external calls are parameters; the handler records each call it
 * makes, with what the call returned, so that which calls happen and in
 * what order is part of its result.
 */
module Chat {
  import opened Wrappers
  import opened PyStr
  import opened Chunker
  import opened Store
  import Indexer

  /** `n_results` of the query: the number of chunks asked for. */
  const TopK: nat := 4

  const EmptyMessageDetail: string := "Message cannot be empty"

  /** What `collection.query(...)` returns, reduced to its "documents"
      entry: one ranked list of documents per query embedding, or None. */
  datatype QueryResult = QueryResult(documents: Option<seq<seq<string>>>)

  /** The documents ranked for the (single) query embedding; none when the
      entry is missing or holds no list. */
  function RankedDocuments(result: QueryResult): seq<string> {
    match result.documents
    case None => []
    case Some(lists) => if lists == [] then [] else lists[0]
  }

  /** The context handed to the model: `""` when there is no document list
      or the first list is empty, otherwise the first list's documents in
      ranked order, joined with a blank line. */
  function BuildContext(result: QueryResult): string {
    if result.documents.None? || result.documents.value == [] || result.documents.value[0] == [] then ""
    else Join(result.documents.value[0])
  }

  /** The context joins exactly the ranked documents; when those are chunks,
      it is empty exactly when there are none. */
  lemma ContextJoinsRanked(result: QueryResult)
    ensures BuildContext(result) == Join(RankedDocuments(result))
    ensures AllChunks(RankedDocuments(result)) ==>
      (BuildContext(result) == "" <==> RankedDocuments(result) == [])
  {
  }

  /** The context splits back into the ranked documents: chunking it
      returns them, in ranked order, when they are chunks. */
  lemma ContextRoundTrip(result: QueryResult)
    requires AllChunks(RankedDocuments(result))
    ensures Chunks(BuildContext(result)) == RankedDocuments(result)
  {
    ContextJoinsRanked(result);
    ChunksOfJoin(RankedDocuments(result));
  }

  /** The documents a collection holds. */
  function Documents(records: map<string, Record>): set<string> {
    set id | id in records :: records[id].document
  }

  /** Documents retrieved from a store loaded from `text` are chunks of it,
      so the context splits back into exactly the retrieved documents. */
  lemma ContextFromLoadedStore(text: string, embed: string -> Embedding, result: QueryResult)
    requires forall i :: 0 <= i < |RankedDocuments(result)| ==>
      RankedDocuments(result)[i] in Documents(Indexer.IndexOf(Chunks(text), embed))
    ensures Chunks(BuildContext(result)) == RankedDocuments(result)
  {
    var records := Indexer.IndexOf(Chunks(text), embed);
    Indexer.LoadedCorpus(text, embed);
    var docs := RankedDocuments(result);
    forall i | 0 <= i < |docs| ensures IsChunk(docs[i]) {
      assert docs[i] in Documents(records);
      var id :| id in records && records[id].document == docs[i];
    }
    ContextRoundTrip(result);
  }

  /** One external call the handler made, with what it returned. */
  datatype Call =
    | EmbedCall(text: string, vector: Embedding)
    | QueryCall(queryEmbedding: Embedding, nResults: nat, result: QueryResult)
    | AskCall(context: string, question: string, answer: string)

  /** An HTTP 400 error, or the body `{"response": answer}`. */
  datatype Response =
    | BadRequest(status: nat, detail: string)
    | Answer(response: string)

  /** The outcome of one chat turn and the calls made during it. */
  datatype Turn = Turn(response: Response, calls: seq<Call>)

  /** The `/chat` handler for the request body `{"message": message}`.
      `embed`, `query` and `ask` stand for the embedding call, the
      collection's nearest-neighbour query and the chat-completion call. */
  function Handle(message: string,
                  embed: string -> Embedding,
                  query: (Embedding, nat) -> QueryResult,
                  ask: (string, string) -> string): Turn
  {
    if Strip(message) == "" then
      Turn(BadRequest(400, EmptyMessageDetail), [])
    else
      var queryEmbedding := embed(message);
      var results := query(queryEmbedding, TopK);
      var context := BuildContext(results);
      var answer := ask(context, message);
      Turn(Answer(answer),
           [EmbedCall(message, queryEmbedding),
            QueryCall(queryEmbedding, TopK, results),
            AskCall(context, message, answer)])
  }

  /** A message is rejected exactly when it is empty or whitespace only;
      the rejection is a 400 and no external call is made. */
  lemma RejectsExactlyBlank(message: string,
                            embed: string -> Embedding,
                            query: (Embedding, nat) -> QueryResult,
                            ask: (string, string) -> string)
    ensures Handle(message, embed, query, ask).response.BadRequest? <==> AllSpace(message)
    ensures AllSpace(message) ==>
      Handle(message, embed, query, ask) == Turn(BadRequest(400, EmptyMessageDetail), [])
  {
    StripEmptyIff(message);
  }

  /** Whatever the external services would do, a rejected message gets the
      same reply: none of them is consulted. */
  lemma RejectionIgnoresServices(message: string,
                                 embed: string -> Embedding,
                                 query: (Embedding, nat) -> QueryResult,
                                 ask: (string, string) -> string,
                                 embed': string -> Embedding,
                                 query': (Embedding, nat) -> QueryResult,
                                 ask': (string, string) -> string)
    requires AllSpace(message)
    ensures Handle(message, embed, query, ask) == Handle(message, embed', query', ask')
  {
    RejectsExactlyBlank(message, embed, query, ask);
    RejectsExactlyBlank(message, embed', query', ask');
  }

  /** Any other message goes through embed, then query with four results,
      then ask; each stage takes the previous one's output, the question is
      passed on unstripped, and the answer is returned verbatim. */
  lemma AcceptedStages(message: string,
                       embed: string -> Embedding,
                       query: (Embedding, nat) -> QueryResult,
                       ask: (string, string) -> string)
    requires !AllSpace(message)
    ensures var turn := Handle(message, embed, query, ask);
      && |turn.calls| == 3
      && turn.calls[0].EmbedCall? && turn.calls[0].text == message
      && turn.calls[0].vector == embed(message)
      && turn.calls[1].QueryCall? && turn.calls[1].queryEmbedding == turn.calls[0].vector
      && turn.calls[1].nResults == 4
      && turn.calls[1].result == query(turn.calls[1].queryEmbedding, 4)
      && turn.calls[2].AskCall? && turn.calls[2].context == BuildContext(turn.calls[1].result)
      && turn.calls[2].question == message
      && turn.calls[2].answer == ask(turn.calls[2].context, message)
      && turn.response == Answer(turn.calls[2].answer)
  {
    StripEmptyIff(message);
  }
}
