/**
 * The embedding manager: builds the embedding request for a list of
 * documents, turns documents and their embeddings into vector records with
 * positional ids `vector<i>`, upserts them into one namespace of the vector
 * index, and extracts the texts of the matches of a similarity query.
 *
 * The hosted service appears only as oracles (`Embedder`, `Querier`) and as
 * the state of the index, a map keyed by (namespace, id) where an upsert is
 * last-write-wins.
 */
module EmbeddingService {
  import opened Wrappers
  import opened Text

  const DefaultModel: string := "llama-text-embed-v2"
  const DefaultTopK: nat := 3
  const IdPrefix: string := "vector"

  /** A chunk of text to embed (`Document.page_content`). */
  datatype Document = Document(pageContent: string)

  /** One element of an embeddings list; only its `values` are used. */
  datatype Embedding = Embedding(values: seq<real>)

  /** The arguments of one `inference.embed` call. */
  datatype EmbedRequest = EmbedRequest(model: string, inputs: seq<string>, inputType: string, truncate: Option<string>)

  /** `inference.embed`: `None` when the call raises. */
  type Embedder = EmbedRequest -> Option<seq<Embedding>>

  /** A record handed to `upsert`. */
  datatype VectorRecord = VectorRecord(id: string, values: seq<real>, metadata: map<string, string>)

  /** What the index stores under a (namespace, id) key. */
  datatype Entry = Entry(values: seq<real>, metadata: map<string, string>)

  type IndexState = map<(string, string), Entry>

  /** A query's arguments; values are never requested and metadata always is. */
  datatype QueryRequest = QueryRequest(namespace: string, vector: seq<real>, topK: nat,
                                       includeValues: bool, includeMetadata: bool)

  /** One entry of a query's `matches`. */
  datatype Match = Match(id: string, metadata: map<string, string>)

  /** `index.query(...)['matches']`: `None` when the call raises. */
  type Querier = QueryRequest -> Option<seq<Match>>

  /** The manager's configuration, fixed at construction and never changed. */
  datatype Manager = Manager(apiKey: string, indexName: string, nameSpace: string)

  datatype SearchError = ServiceError | IndexError | KeyError(key: string)

  /** `[d.page_content for d in documents]`. */
  function PageContents(documents: seq<Document>): (inputs: seq<string>)
    ensures |inputs| == |documents|
    ensures forall i :: 0 <= i < |documents| ==> inputs[i] == documents[i].pageContent
  {
    if documents == [] then [] else [documents[0].pageContent] + PageContents(documents[1..])
  }

  /**
   * The request `create_embeddings` sends: one passage input per document, in
   * document order, truncated at the end.
   */
  function CreateEmbeddingsRequest(documents: seq<Document>, modelName: string): (req: EmbedRequest)
    ensures req.model == modelName && req.inputType == "passage" && req.truncate == Some("END")
    ensures |req.inputs| == |documents|
    ensures forall i :: 0 <= i < |documents| ==> req.inputs[i] == documents[i].pageContent
  {
    EmbedRequest(modelName, PageContents(documents), "passage", Some("END"))
  }

  /** `create_embeddings`, with the same default model. */
  function CreateEmbeddings(documents: seq<Document>, embed: Embedder, modelName: string := DefaultModel): (r: Option<seq<Embedding>>)
    ensures r == embed(EmbedRequest(modelName, PageContents(documents), "passage", Some("END")))
  {
    embed(CreateEmbeddingsRequest(documents, modelName))
  }

  /** The id of the record at position `i` of a batch. */
  function VectorId(i: nat): string {
    IdPrefix + NatToString(i)
  }

  /** The metadata stored with a document: its text. */
  function TextMetadata(text: string): (m: map<string, string>)
    ensures m.Keys == {"text"} && m["text"] == text
  {
    map["text" := text]
  }

  /**
   * `enumerate(zip(documents, embeddings))` from position `start`: `zip` stops
   * at the shorter list.
   */
  function RecordsFrom(documents: seq<Document>, embeddings: seq<Embedding>, start: nat): (rs: seq<VectorRecord>)
    ensures |rs| == if |documents| < |embeddings| then |documents| else |embeddings|
    ensures forall i :: 0 <= i < |rs| ==>
              rs[i] == VectorRecord(VectorId(start + i), embeddings[i].values, TextMetadata(documents[i].pageContent))
  {
    if documents == [] || embeddings == [] then []
    else
      [VectorRecord(VectorId(start), embeddings[0].values, TextMetadata(documents[0].pageContent))]
      + RecordsFrom(documents[1..], embeddings[1..], start + 1)
  }

  /** The records `store_embeddings` builds. */
  function BuildRecords(documents: seq<Document>, embeddings: seq<Embedding>): seq<VectorRecord> {
    RecordsFrom(documents, embeddings, 0)
  }

  /** Ids of distinct positions differ. */
  lemma VectorIdInjective(i: nat, j: nat)
    ensures VectorId(i) == VectorId(j) ==> i == j
  {
    if VectorId(i) == VectorId(j) {
      assert NatToString(i) == VectorId(i)[|IdPrefix|..];
      assert NatToString(j) == VectorId(j)[|IdPrefix|..];
      NatToStringInjective(i, j);
    }
  }

  predicate DistinctIds(rs: seq<VectorRecord>) {
    forall i, j :: 0 <= i < j < |rs| ==> rs[i].id != rs[j].id
  }

  /**
   * A batch holds `min(len(documents), len(embeddings))` records whose ids run
   * `vector0, vector1, ...` without gaps and are pairwise distinct.
   */
  lemma BatchIds(documents: seq<Document>, embeddings: seq<Embedding>)
    ensures var rs := BuildRecords(documents, embeddings);
            && |rs| == (if |documents| < |embeddings| then |documents| else |embeddings|)
            && (forall i :: 0 <= i < |rs| ==> rs[i].id == "vector" + NatToString(i))
            && DistinctIds(rs)
  {
    var rs := BuildRecords(documents, embeddings);
    forall i, j | 0 <= i < j < |rs| ensures rs[i].id != rs[j].id {
      VectorIdInjective(i, j);
    }
  }

  /** Ids depend only on position: equally long batches carry the same ids. */
  lemma SameLengthSameIds(d1: seq<Document>, e1: seq<Embedding>, d2: seq<Document>, e2: seq<Embedding>)
    requires |BuildRecords(d1, e1)| == |BuildRecords(d2, e2)|
    ensures forall i :: 0 <= i < |BuildRecords(d1, e1)| ==> BuildRecords(d1, e1)[i].id == BuildRecords(d2, e2)[i].id
  {
  }

  /** `index.upsert(vectors=records, namespace=ns)`: each record in turn, last write wins. */
  function Upsert(index: IndexState, namespace: string, records: seq<VectorRecord>): (r: IndexState)
    ensures index.Keys <= r.Keys
    ensures forall key :: key in index && key.0 != namespace ==> r[key] == index[key]
    ensures records != [] ==>
              var last := records[|records| - 1];
              (namespace, last.id) in r && r[(namespace, last.id)] == Entry(last.values, last.metadata)
    decreases |records|
  {
    if records == [] then index
    else
      var r := records[|records| - 1];
      Upsert(index, namespace, records[..|records| - 1])[(namespace, r.id) := Entry(r.values, r.metadata)]
  }

  /** The entries a batch writes, keyed in `namespace`; a later record wins over an earlier one with its id. */
  function BatchEntries(namespace: string, records: seq<VectorRecord>): IndexState
    decreases |records|
  {
    if records == [] then map[]
    else
      var r := records[|records| - 1];
      BatchEntries(namespace, records[..|records| - 1])[(namespace, r.id) := Entry(r.values, r.metadata)]
  }

  /** An upsert overwrites exactly the batch's keys: the old index updated with the batch's entries. */
  lemma {:induction false} UpsertIsUnion(index: IndexState, namespace: string, records: seq<VectorRecord>)
    ensures Upsert(index, namespace, records) == index + BatchEntries(namespace, records)
    decreases |records|
  {
    if records != [] {
      var n := |records| - 1;
      UpsertIsUnion(index, namespace, records[..n]);
    }
  }

  /** The batch's keys are its ids in `namespace`. */
  lemma {:induction false} BatchEntriesKeys(namespace: string, records: seq<VectorRecord>, key: (string, string))
    ensures key in BatchEntries(namespace, records) <==>
              key.0 == namespace && exists i :: 0 <= i < |records| && records[i].id == key.1
    decreases |records|
  {
    if records != [] {
      var n := |records| - 1;
      BatchEntriesKeys(namespace, records[..n], key);
      if key.0 == namespace && key.1 != records[n].id {
        if exists i :: 0 <= i < |records| && records[i].id == key.1 {
          var i :| 0 <= i < |records| && records[i].id == key.1;
          assert records[..n][i].id == key.1;
        }
      }
    }
  }

  /** With distinct ids, the entry under record `i`'s key is record `i`'s. */
  lemma {:induction false} BatchEntriesAt(namespace: string, records: seq<VectorRecord>, i: nat)
    requires DistinctIds(records) && i < |records|
    ensures (namespace, records[i].id) in BatchEntries(namespace, records)
    ensures BatchEntries(namespace, records)[(namespace, records[i].id)] == Entry(records[i].values, records[i].metadata)
    decreases |records|
  {
    var n := |records| - 1;
    if i < n {
      assert records[..n][i] == records[i];
      BatchEntriesAt(namespace, records[..n], i);
    }
  }

  /** Two batches with the same ids, position by position, write the same keys. */
  lemma {:induction false} SameIdsSameKeys(namespace: string, r1: seq<VectorRecord>, r2: seq<VectorRecord>)
    requires |r1| == |r2| && forall i :: 0 <= i < |r1| ==> r1[i].id == r2[i].id
    ensures BatchEntries(namespace, r1).Keys == BatchEntries(namespace, r2).Keys
    decreases |r1|
  {
    if r1 != [] {
      var n := |r1| - 1;
      SameIdsSameKeys(namespace, r1[..n], r2[..n]);
    }
  }

  /** `store_embeddings`: one upsert of all records into the manager's namespace. */
  function StoreEmbeddings(m: Manager, embeddings: seq<Embedding>, documents: seq<Document>,
                           index: IndexState): (r: IndexState)
    ensures forall key :: key in r && key !in index ==> key.0 == m.nameSpace
    ensures forall key :: key in index && key.0 != m.nameSpace ==> key in r && r[key] == index[key]
  {
    var records := BuildRecords(documents, embeddings);
    UpsertIsUnion(index, m.nameSpace, records);
    assert forall key :: key in BatchEntries(m.nameSpace, records) ==> key.0 == m.nameSpace by {
      forall key | key in BatchEntries(m.nameSpace, records) ensures key.0 == m.nameSpace {
        BatchEntriesKeys(m.nameSpace, records, key);
      }
    }
    Upsert(index, m.nameSpace, records)
  }

  /**
   * After `store_embeddings`, record `i` of the batch is in the manager's
   * namespace under `vector<i>`, holding the i-th embedding and the i-th
   * document's text; every key the batch does not write keeps its old entry.
   */
  lemma StoredContents(m: Manager, embeddings: seq<Embedding>, documents: seq<Document>, index: IndexState)
    ensures var r := StoreEmbeddings(m, embeddings, documents, index);
            && (forall i :: 0 <= i < |documents| && i < |embeddings| ==>
                  (m.nameSpace, VectorId(i)) in r &&
                  r[(m.nameSpace, VectorId(i))] == Entry(embeddings[i].values, TextMetadata(documents[i].pageContent)))
            && (forall key :: key in index && key !in BatchEntries(m.nameSpace, BuildRecords(documents, embeddings)) ==>
                  key in r && r[key] == index[key])
  {
    var records := BuildRecords(documents, embeddings);
    BatchIds(documents, embeddings);
    UpsertIsUnion(index, m.nameSpace, records);
    forall i | 0 <= i < |documents| && i < |embeddings|
      ensures (m.nameSpace, VectorId(i)) in BatchEntries(m.nameSpace, records)
      ensures BatchEntries(m.nameSpace, records)[(m.nameSpace, VectorId(i))]
              == Entry(embeddings[i].values, TextMetadata(documents[i].pageContent))
    {
      BatchEntriesAt(m.nameSpace, records, i);
    }
  }

  /**
   * Re-ingestion aliases: storing a second batch of the same length into the
   * same namespace replaces every entry the first batch wrote, so the index
   * ends exactly as if the first batch had never been stored.
   */
  lemma ReingestOverwrites(m: Manager, e1: seq<Embedding>, d1: seq<Document>,
                           e2: seq<Embedding>, d2: seq<Document>, index: IndexState)
    requires |BuildRecords(d1, e1)| == |BuildRecords(d2, e2)|
    ensures StoreEmbeddings(m, e2, d2, StoreEmbeddings(m, e1, d1, index)) == StoreEmbeddings(m, e2, d2, index)
  {
    var r1, r2 := BuildRecords(d1, e1), BuildRecords(d2, e2);
    var b1, b2 := BatchEntries(m.nameSpace, r1), BatchEntries(m.nameSpace, r2);
    UpsertIsUnion(index, m.nameSpace, r1);
    UpsertIsUnion(index + b1, m.nameSpace, r2);
    UpsertIsUnion(index, m.nameSpace, r2);
    assert forall i :: 0 <= i < |r1| ==> r1[i].id == VectorId(i) == r2[i].id;
    SameIdsSameKeys(m.nameSpace, r1, r2);
    OverrideSameKeys(index, b1, b2);
  }

  lemma OverrideSameKeys(a: IndexState, b1: IndexState, b2: IndexState)
    requires b1.Keys == b2.Keys
    ensures a + b1 + b2 == a + b2
  {
  }

  /**
   * `create_and_store_embeddings`: embed the documents with the default model,
   * then store them. When the embedding call raises, the exception leaves the
   * method before anything is stored.
   */
  function CreateAndStoreEmbeddings(m: Manager, documents: seq<Document>, embed: Embedder,
                                    index: IndexState): (r: Result<IndexState, SearchError>)
    ensures r.Err? <==> CreateEmbeddings(documents, embed).None?
    ensures r.Err? ==> r.error == ServiceError
    ensures r.Ok? ==>
              var embeddings := CreateEmbeddings(documents, embed).value;
              && r.value == StoreEmbeddings(m, embeddings, documents, index)
              && (forall i :: 0 <= i < |documents| && i < |embeddings| ==>
                    (m.nameSpace, VectorId(i)) in r.value &&
                    r.value[(m.nameSpace, VectorId(i))] == Entry(embeddings[i].values, TextMetadata(documents[i].pageContent)))
              && (forall key :: key in index && key.0 != m.nameSpace ==> key in r.value && r.value[key] == index[key])
  {
    match CreateEmbeddings(documents, embed)
    case None => Err(ServiceError)
    case Some(embeddings) =>
      StoredContents(m, embeddings, documents, index);
      Ok(StoreEmbeddings(m, embeddings, documents, index))
  }

  /**
   * `[result['metadata']['text'] for result in results]`: one text per match,
   * in the order given; a match without a text raises `KeyError`.
   */
  function MatchTexts(matches: seq<Match>): (r: Result<seq<string>, SearchError>)
    ensures r.Ok? <==> forall i :: 0 <= i < |matches| ==> "text" in matches[i].metadata
    ensures r.Err? ==> r.error == KeyError("text")
    ensures r.Ok? ==>
              && |r.value| == |matches|
              && forall i :: 0 <= i < |matches| ==> r.value[i] == matches[i].metadata["text"]
  {
    if matches == [] then Ok([])
    else if "text" !in matches[0].metadata then Err(KeyError("text"))
    else
      match MatchTexts(matches[1..])
      case Err(e) => Err(e)
      case Ok(rest) => Ok([matches[0].metadata["text"]] + rest)
  }

  /** The embedding request for a query. */
  function QueryEmbedRequest(query: string, model: string): EmbedRequest {
    EmbedRequest(model, [query], "query", None)
  }

  /**
   * `search_matching`: embed the query as a query input, ask the index of the
   * manager's namespace for `topK` matches with metadata, and return their texts
   * in the order the index returned them. Raised exceptions become errors.
   */
  function SearchMatching(m: Manager, query: string, embed: Embedder, ask: Querier,
                          model: string := DefaultModel, topK: nat := DefaultTopK): (r: Result<seq<string>, SearchError>)
    ensures embed(QueryEmbedRequest(query, model)).None? ==> r == Err(ServiceError)
    ensures embed(QueryEmbedRequest(query, model)) == Some([]) ==> r == Err(IndexError)
    ensures var e := embed(QueryEmbedRequest(query, model));
            e.Some? && e.value != [] ==>
              var q := ask(QueryRequest(m.nameSpace, e.value[0].values, topK, false, true));
              r == (if q.None? then Err(ServiceError) else MatchTexts(q.value))
    ensures r.Ok? ==>
              var vector := embed(QueryEmbedRequest(query, model)).value[0].values;
              var matches := ask(QueryRequest(m.nameSpace, vector, topK, false, true));
              && matches.Some? && |r.value| == |matches.value|
              && forall i :: 0 <= i < |r.value| ==>
                   "text" in matches.value[i].metadata && r.value[i] == matches.value[i].metadata["text"]
  {
    match embed(QueryEmbedRequest(query, model))
    case None => Err(ServiceError)
    case Some(queryEmbedding) =>
      if queryEmbedding == [] then Err(IndexError)
      else
        match ask(QueryRequest(m.nameSpace, queryEmbedding[0].values, topK, false, true))
        case None => Err(ServiceError)
        case Some(results) => MatchTexts(results)
  }

  /** Every entry a batch writes holds the text of one of its documents. */
  lemma BatchEntryHoldsDocument(namespace: string, embeddings: seq<Embedding>, documents: seq<Document>, key: (string, string))
    requires key in BatchEntries(namespace, BuildRecords(documents, embeddings))
    ensures exists i :: 0 <= i < |documents| &&
              BatchEntries(namespace, BuildRecords(documents, embeddings))[key].metadata == TextMetadata(documents[i].pageContent)
  {
    var records := BuildRecords(documents, embeddings);
    BatchIds(documents, embeddings);
    BatchEntriesKeys(namespace, records, key);
    var i :| 0 <= i < |records| && records[i].id == key.1;
    BatchEntriesAt(namespace, records, i);
    assert key == (namespace, records[i].id);
  }

  /** Every entry a batch stores into an empty index holds the text of one of its documents. */
  lemma StoredEntryHoldsDocument(m: Manager, embeddings: seq<Embedding>, documents: seq<Document>, key: (string, string))
    requires key in StoreEmbeddings(m, embeddings, documents, map[])
    ensures exists i :: 0 <= i < |documents| &&
              StoreEmbeddings(m, embeddings, documents, map[])[key].metadata == TextMetadata(documents[i].pageContent)
  {
    var records := BuildRecords(documents, embeddings);
    var batch := BatchEntries(m.nameSpace, records);
    UpsertIsUnion(map[], m.nameSpace, records);
    assert map[] + batch == batch;
    BatchEntryHoldsDocument(m.nameSpace, embeddings, documents, key);
  }

  /**
   * Texts found are texts that were stored: when every match the index returns
   * is an entry of the namespace after storing `documents`, and no other entry
   * of that namespace existed before, every returned text is the content of
   * one of the documents.
   */
  lemma SearchReturnsStoredTexts(m: Manager, embeddings: seq<Embedding>, documents: seq<Document>,
                                 query: string, embed: Embedder, ask: Querier, model: string, topK: nat)
    requires var stored := StoreEmbeddings(m, embeddings, documents, map[]);
             forall q, k :: ask(q).Some? && 0 <= k < |ask(q).value| ==>
               (m.nameSpace, ask(q).value[k].id) in stored &&
               ask(q).value[k].metadata == stored[(m.nameSpace, ask(q).value[k].id)].metadata
    ensures var r := SearchMatching(m, query, embed, ask, model, topK);
            r.Ok? ==> forall k :: 0 <= k < |r.value| ==>
                        exists i :: 0 <= i < |documents| && r.value[k] == documents[i].pageContent
  {
    var r := SearchMatching(m, query, embed, ask, model, topK);
    if r.Ok? {
      var q := QueryRequest(m.nameSpace, embed(QueryEmbedRequest(query, model)).value[0].values, topK, false, true);
      var matches := ask(q).value;
      forall k | 0 <= k < |r.value|
        ensures exists i :: 0 <= i < |documents| && r.value[k] == documents[i].pageContent
      {
        assert r.value[k] == matches[k].metadata["text"];
        StoredEntryHoldsDocument(m, embeddings, documents, (m.nameSpace, matches[k].id));
      }
    }
  }
}
