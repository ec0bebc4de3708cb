/**
 * The start-up ingestion: when the collection is empty and the corpus
 * file exists, every chunk of the corpus is added in order under the
 * id `str(i)`; otherwise nothing is written.
 */
module Indexer {
  import opened Wrappers
  import opened PyStr
  import opened Chunker
  import opened Store

  /** Which branch of the start-up code ran (each prints its own line). */
  datatype Outcome =
    | AlreadyPopulated        // count() != 0: nothing loaded
    | CorpusMissing           // "data.txt not found!"
    | Loaded(count: nat)      // "Loaded {len(chunks)} chunks"

  /** The records that adding `chunks[0]`, ..., `chunks[n-1]` in order to an
      empty collection produces: `chunks[i]` under the id `str(i)`.
      `embed` stands for the embedding call, whose result is stored as is. */
  function IndexOf(chunks: seq<string>, embed: string -> Embedding): map<string, Record>
    decreases |chunks|
  {
    if chunks == [] then map[]
    else
      var n := |chunks| - 1;
      IndexOf(chunks[..n], embed)[Str(n) := Record(embed(chunks[n]), chunks[n])]
  }

  /** The ids of the records are exactly `"0"`, ..., `str(n-1)`. */
  lemma {:induction false} IndexOfKeys(chunks: seq<string>, embed: string -> Embedding)
    ensures IndexOf(chunks, embed).Keys == set i | 0 <= i < |chunks| :: Str(i)
    decreases |chunks|
  {
    if chunks != [] {
      var n := |chunks| - 1;
      IndexOfKeys(chunks[..n], embed);
      var before := set i | 0 <= i < n :: Str(i);
      var after := set i | 0 <= i < |chunks| :: Str(i);
      assert after == before + {Str(n)} by {
        forall id | id in after ensures id in before + {Str(n)} {
          var i :| 0 <= i < |chunks| && id == Str(i);
          if i < n { assert id in before; }
        }
        forall id | id in before + {Str(n)} ensures id in after {
          if id in before {
            var i :| 0 <= i < n && id == Str(i);
          }
        }
      }
    }
  }

  /** The next id is not taken yet. */
  lemma FreshId(chunks: seq<string>, embed: string -> Embedding)
    ensures Str(|chunks|) !in IndexOf(chunks, embed)
  {
    IndexOfKeys(chunks, embed);
    if Str(|chunks|) in IndexOf(chunks, embed) {
      var i :| 0 <= i < |chunks| && Str(|chunks|) == Str(i);
      StrInjective(i, |chunks|);
    }
  }

  /** The record under `str(i)` holds `chunks[i]` and its embedding. */
  lemma {:induction false} IndexOfAt(chunks: seq<string>, embed: string -> Embedding, i: nat)
    requires i < |chunks|
    ensures Str(i) in IndexOf(chunks, embed)
    ensures IndexOf(chunks, embed)[Str(i)] == Record(embed(chunks[i]), chunks[i])
    decreases |chunks|
  {
    var n := |chunks| - 1;
    if i < n {
      IndexOfAt(chunks[..n], embed, i);
      StrInjective(i, n);
      assert chunks[..n][i] == chunks[i];
    }
  }

  /** One record per chunk: the ids never collide. */
  lemma {:induction false} IndexOfSize(chunks: seq<string>, embed: string -> Embedding)
    ensures |IndexOf(chunks, embed)| == |chunks|
    decreases |chunks|
  {
    if chunks != [] {
      var n := |chunks| - 1;
      IndexOfSize(chunks[..n], embed);
      FreshId(chunks[..n], embed);
    }
  }

  /** What a freshly loaded collection looks like: exactly one record per
      chunk, the ids are `"0"`, ..., `str(n-1)`, and `str(i)` holds
      `chunks[i]`. */
  predicate DenseIndex(records: map<string, Record>, chunks: seq<string>, embed: string -> Embedding) {
    && |records| == |chunks|
    && records.Keys == (set i | 0 <= i < |chunks| :: Str(i))
    && (forall i :: 0 <= i < |chunks| ==> Str(i) in records && records[Str(i)] == Record(embed(chunks[i]), chunks[i]))
  }

  lemma IndexOfIsDense(chunks: seq<string>, embed: string -> Embedding)
    ensures DenseIndex(IndexOf(chunks, embed), chunks, embed)
  {
    IndexOfSize(chunks, embed);
    IndexOfKeys(chunks, embed);
    forall i | 0 <= i < |chunks|
      ensures Str(i) in IndexOf(chunks, embed)
      ensures IndexOf(chunks, embed)[Str(i)] == Record(embed(chunks[i]), chunks[i])
    {
      IndexOfAt(chunks, embed, i);
    }
  }

  /** Loading a corpus stores its chunks densely, and every stored document
      is a chunk (non-empty, stripped, separator-free). */
  lemma LoadedCorpus(text: string, embed: string -> Embedding)
    ensures DenseIndex(IndexOf(Chunks(text), embed), Chunks(text), embed)
    ensures forall id :: id in IndexOf(Chunks(text), embed) ==> IsChunk(IndexOf(Chunks(text), embed)[id].document)
  {
    var chunks := Chunks(text);
    var records := IndexOf(chunks, embed);
    IndexOfIsDense(chunks, embed);
    ChunksAreChunks(text);
    forall id | id in records ensures IsChunk(records[id].document) {
      var i :| 0 <= i < |chunks| && id == Str(i);
    }
  }

  /** The guarded start-up routine. `corpus` is None when the corpus file
      does not exist, and otherwise the string text-mode `f.read()` returns:
      decoded, with `"\r\n"` and `"\r"` already turned into `"\n"`. */
  method Ingest(store: Collection, corpus: Option<string>, embed: string -> Embedding)
    returns (outcome: Outcome)
    modifies store
    ensures old(store.Count()) != 0 ==>
      outcome == AlreadyPopulated && store.records == old(store.records)
    ensures old(store.Count()) == 0 && corpus.None? ==>
      outcome == CorpusMissing && store.records == old(store.records) == map[]
    ensures old(store.Count()) == 0 && corpus.Some? ==>
      outcome == Loaded(|Chunks(corpus.value)|) && store.records == IndexOf(Chunks(corpus.value), embed)
  {
    if store.Count() != 0 {
      return AlreadyPopulated;
    }
    assert store.records == map[];
    if corpus.None? {
      return CorpusMissing;
    }
    var chunks := Chunks(corpus.value);
    for i := 0 to |chunks|
      invariant store.records == IndexOf(chunks[..i], embed)
    {
      FreshId(chunks[..i], embed);
      store.Add(Str(i), embed(chunks[i]), chunks[i]);
      assert chunks[..i + 1][..i] == chunks[..i];
    }
    assert chunks[..|chunks|] == chunks;
    return Loaded(|chunks|);
  }

  /** The start-up routine run twice against the same persisted store, as on
      a restart: the second run writes nothing, so the store is what one run
      leaves. */
  method IngestTwice(store: Collection, corpus: Option<string>, embed: string -> Embedding)
    returns (first: Outcome, second: Outcome)
    modifies store
    ensures second == AlreadyPopulated || second == CorpusMissing || second == Loaded(0)
    ensures old(store.Count()) != 0 ==> store.records == old(store.records)
    ensures old(store.Count()) == 0 && corpus.None? ==> store.records == map[]
    ensures old(store.Count()) == 0 && corpus.Some? ==>
      DenseIndex(store.records, Chunks(corpus.value), embed)
  {
    first := Ingest(store, corpus, embed);
    ghost var afterFirst := store.records;
    if first.Loaded? {
      IndexOfSize(Chunks(corpus.value), embed);
      IndexOfIsDense(Chunks(corpus.value), embed);
    }
    second := Ingest(store, corpus, embed);
    if second.Loaded? {
      assert Chunks(corpus.value) == [];
    }
    assert store.records == afterFirst;
  }
}
