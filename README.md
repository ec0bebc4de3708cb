# A model of the company chatbot's retrieval pipeline

The chatbot is a small retrieval-augmented chat service. At start-up it
cuts a corpus file into chunks at blank lines and stores each chunk, with
its embedding, in a persistent vector-store collection. It does this only
when the collection is empty. For each `POST /chat` it rejects an empty or
whitespace-only message. Otherwise it embeds the message, asks the
collection for the four nearest chunks, joins them with blank lines into
a context, and returns what the chat model answers.

This project models in Dafny the part of `app.py` that is plain logic:

- **PyStr** (`pystr.dfy`): the Python built-ins the code uses, written out.
  These are `str.isspace` (the full Unicode set Python uses), `str.strip()`,
  `str.split("\n\n")` with leftmost, non-overlapping matching, `"\n\n".join`,
  and `str(i)` for `i >= 0`.
- **Chunker** (`chunker.dfy`): `[c.strip() for c in text.split("\n\n") if c.strip()]`.
- **Store** (`store.dfy`): the collection as a class whose state is a map from
  id to record (embedding, document). `count()` is the size of that map and
  `add` inserts one record.
- **Indexer** (`indexer.dfy`): the count-guarded start-up loop, as a method
  that adds the chunks one by one.
- **Chat** (`chat.dfy`): the context builder and the `/chat` handler. The
  embedding call, the collection query and the chat-completion call are
  function parameters. The handler returns the response together with the
  list of calls it made, each with its result. That way "no call is made"
  and "stage order" are statements about its result.

`Wrappers` (`wrappers.dfy`) holds only an `Option` type.

Two details of the code are easy to miss:

- Only the literal two-character `"\n\n"` separates pieces (app.py:120).
  `"A\n\n\nB"` gives the pieces `"A"` and `"\nB"`, which strip to the chunks
  `"A"` and `"B"`. `"A\n \nB"` stays one chunk even though its middle line
  looks blank.
- Accepted messages are not trimmed. `strip()` is used only for the
  emptiness test (app.py:135), and the raw message goes to `embed` and
  `ask_llm` (app.py:138, 151). `Chat.AcceptedStages` states this.

## Model

| member | source | states |
|---|---|---|
| `PyStr.StripParts` | app.py:120 | `strip()` leaves a middle whose first and last characters are not whitespace, and the input is that middle padded only with whitespace on both sides |
| `PyStr.StripOfPadded` | app.py:120 | the converse: a stripped string padded with any whitespace strips back to itself, so the two facts together characterise `strip()` |
| `PyStr.StripFixedPoint` | app.py:120 | a stripped string is a fixed point of `strip()`, and `strip()` is idempotent |
| `PyStr.StripEmptyIff` | app.py:135 | `s.strip()` is empty if and only if every character of `s` is whitespace |
| `PyStr.SplitJoin` | app.py:120 | joining the pieces of `text.split("\n\n")` with `"\n\n"` gives back `text` |
| `PyStr.SplitIsSplitOf` | app.py:120 | the split is non-empty, joins back to the input, has no `"\n\n"` in any piece, and no piece before the last ends in a newline (leftmost matching) |
| `PyStr.SplitUnique` | app.py:120 | any list of pieces with those properties is the split, so they define `split` independently of how it is computed |
| `PyStr.SplitOfSepFree` | app.py:120 | a string without `"\n\n"` splits into itself alone |
| `PyStr.SplitAfterPiece` | app.py:120 | a separator-free piece not ending in a newline, followed by `"\n\n"`, is split off as the first piece |
| `PyStr.Str` | app.py:124 | `str(i)` is a non-empty string of decimal digits that starts with `'0'` exactly when `i` is 0 |
| `PyStr.ParseStr` | app.py:124 | reading the digits of `str(i)` as a decimal number gives `i` back |
| `PyStr.StrInjective` | app.py:124 | distinct positions get distinct ids |
| `Chunker.ChunksAreChunks` | app.py:120 | every chunk is non-empty, has no `"\n\n"`, and is a fixed point of `strip()` |
| `Chunker.ChunksInOrder` | app.py:120 | chunk `k` is the stripped piece at a strictly increasing position `origin[k]` of `text.split("\n\n")`, and every piece that does not strip to empty yields a chunk |
| `Chunker.ChunksOfJoin` | app.py:120 | for any list of non-empty, stripped, separator-free strings, chunking their `"\n\n"` join returns exactly that list |
| `Chunker.ChunksOfChunk` | app.py:120 | re-chunking a single chunk returns just that chunk |
| `Chunker.ChunksIdempotent` | app.py:120 | chunking the join of a text's chunks returns the same chunks |
| `Chunker.ChunksExample` | app.py:120 | `"A\n\nB\n\n\nC"` chunks to `["A", "B", "C"]` |
| `Store.Collection.constructor` | app.py:109 | a new collection holds no records |
| `Store.Collection.Add` | app.py:123-127 | adding under a new id inserts exactly that record and raises the count by one; adding under an existing id changes nothing |
| `Indexer.IndexOfKeys` | app.py:122-124 | after loading `n` chunks, the ids are exactly `"0"` … `str(n-1)` |
| `Indexer.IndexOfAt` | app.py:122-127 | the record under `str(i)` holds `chunks[i]` and that chunk's embedding |
| `Indexer.IndexOfSize` | app.py:122-128 | loading `n` chunks leaves exactly `n` records: no id collides |
| `Indexer.LoadedCorpus` | app.py:120-127 | a store loaded from a corpus is dense (one record per chunk, ids `"0"` … `str(n-1)`, `str(i)` holding `chunks[i]`), and every stored document is a chunk |
| `Indexer.Ingest` | app.py:113-128 | non-zero count: nothing changes. Empty store, no corpus file: the store stays empty. Otherwise the store becomes the chunks in order under ids `str(i)`, and the reported count is `len(chunks)` |
| `Indexer.IngestTwice` | app.py:113 | running the start-up routine again on the same store writes nothing, so the store is what one run leaves |
| `Chat.ContextJoinsRanked` | app.py:146-149 | for every query result, the context is the ranked documents joined with `"\n\n"`; when they are chunks, it is `""` exactly when there are none |
| `Chat.ContextRoundTrip` | app.py:146-149 | chunking the context returns the ranked documents, in ranked order |
| `Chat.ContextFromLoadedStore` | app.py:120-149 | when the retrieved documents come from a store loaded from a corpus, the context splits back into exactly those documents |
| `Chat.RejectsExactlyBlank` | app.py:135-136 | a message is rejected if and only if it is empty or whitespace only; the rejection is status 400 with "Message cannot be empty" and no external call is made |
| `Chat.RejectionIgnoresServices` | app.py:135-136 | a rejected message gets the same reply whatever the embedding, query and chat-completion services would do |
| `Chat.AcceptedStages` | app.py:138-152 | any other message makes exactly three calls, in this order: embed the message, query that embedding with `n_results = 4`, then ask with the context built from that result and the unstripped message; the answer is returned verbatim |

## Left out

- `embed` (app.py:18-40) is a parameter. It is an HTTP call to the embedding provider. Its fallbacks (no API key, a malformed reply, an exception) return a length-1536 zero vector. The model stores whatever `embed` returns. `embed` is a Dafny function, so the model assumes the same text always gets the same vector. The real call can return the zero fallback once and a real vector the next time. No proved property depends on this.
- `ask_llm` (app.py:42-100) is a parameter. It is an HTTP call to the chat-completion provider. Its fallbacks are the fixed strings "API key missing", "Error or quota finished" and "Sorry, something went wrong". Its system prompt (app.py:58-86) gives the model natural-language rules: refusal, language matching, greeting replies. Nothing in the code enforces those rules, so they are not modelled.
- The collection's nearest-neighbour ranking (app.py:140-144) is an input, `Chat.QueryResult`. Its persistence on disk and duplicate ids within one `add` call are also outside the model. `Store.Collection.Add` takes one record because the code passes one-element lists. Ingestion never adds an id that is already present (`Indexer.FreshId`).
- Reading the corpus file (app.py:115-119) is an `Option<string>` parameter: `None` when the file does not exist, otherwise the string that text-mode `f.read()` returns. That string has already been through UTF-8 decoding and newline translation (`"\r\n"` and `"\r"` become `"\n"`), so a CRLF file `"A\r\n\r\nB"` reaches `Chunker.Chunks` as `"A\n\nB"`. The decoding, the translation and read errors are outside the model.
- The log lines printed at start-up and on errors are not modelled. The branch that ran is returned as `Indexer.Outcome`.
- FastAPI and pydantic wiring, the async handler, the `GET /` page (app.py:155-158), environment variables and `uvicorn` start-up (app.py:162-164) are framework and I/O glue.
- At start-up the code ingests only when the collection is empty. Concurrent requests during ingestion are outside the model: ingestion finishes before the service takes traffic.
