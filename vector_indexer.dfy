/**
 * The PineconeVectorIndexer flow: it reads the processed table of a DataTableProcessor run, embeds
 * the `contents` column, makes sure the index exists, upserts one vector per row under the row's
 * position as id, and finally runs one probe query against the index.
 *
 * The vector service is modelled as a store object holding, per index name, a descriptor and a
 * map from vector id to the stored values and metadata; upserting overwrites by id.
 */
module VectorIndexer {
  import opened Wrappers
  import opened Runs
  import opened Decimal
  import T = DataTableProcessor

  /** An embedding; its float components are carried but never computed on. */
  type Embedding = seq<real>

  /** One element of the upsert list: `{'id': .., 'values': .., 'metadata': {'text': ..}}`. */
  datatype VectorRecord = VectorRecord(id: string, values: Embedding, text: string)

  /** What the service keeps under one id. */
  datatype Stored = Stored(values: Embedding, text: string)

  datatype IndexDescriptor = IndexDescriptor(dimension: nat, metric: string)

  /** A candidate of the service's own nearest-neighbour ranking, with its score. */
  datatype Candidate = Candidate(id: string, score: real)

  /** One element of a query's `matches`. */
  datatype Match = Match(id: string, score: real, text: string)

  type Entries = map<string, Stored>

  const IndexName := "metaflow-documentation"
  const Metric := "cosine"
  const TopK := 3
  const TestPrompt := "aws"

  /** The artifact DataTableProcessor leaves: `processed_df`, possibly `None`. */
  type ProcessedDf = Option<T.Frame<T.ProcessedRow>>

  /** `find_processed_df`: the triggering run's table, else the newest successful DataTableProcessor run's. */
  function FindProcessedDf(trigger: Option<Run<ProcessedDf>>, registry: Registry<ProcessedDf>): (r: Result<ProcessedDf>)
    ensures trigger.Some? ==> r == Ok(trigger.value.data)
    ensures trigger.None? && r.Ok? ==>
      && "DataTableProcessor" in registry
      && var h := registry["DataTableProcessor"];
         exists i :: 0 <= i < |h| && h[i].successful && r.value == h[i].data && forall j :: i < j < |h| ==> !h[j].successful
    ensures trigger.None? && "DataTableProcessor" in registry ==>
      (r.Err? <==> forall i :: 0 <= i < |registry["DataTableProcessor"]| ==> !registry["DataTableProcessor"][i].successful)
    ensures trigger.None? && "DataTableProcessor" !in registry ==> r == Err(FlowNotFound)
    ensures trigger.None? && "DataTableProcessor" in registry && r.Err? ==> r == Err(AttributeError)
  {
    var run :- TriggerOrLatestSuccessfulRun(trigger, registry, "DataTableProcessor");
    Ok(run.data)
  }

  /**
   * `self.data[self.embedding_target_col_name].tolist()`: the flow's target column is `contents`,
   * which is the `contents` field of each row's chunk; the documents come in row order.
   */
  function ContentsColumn(t: T.Frame<T.ProcessedRow>): (docs: seq<string>)
    ensures |docs| == |t|
    ensures forall i :: 0 <= i < |t| ==> docs[i] == t[i].row.chunk.contents
  {
    seq(|t|, i requires 0 <= i < |t| => t[i].row.chunk.contents)
  }

  /** `list(range(1, len(docs) + 1))`. */
  function OneBasedIds(n: nat): (ids: seq<int>)
    ensures |ids| == n && forall i :: 0 <= i < n ==> ids[i] == i + 1
  {
    seq(n, i => i + 1)
  }

  /** The upsert list: `str(i)`, the i-th embedding and the i-th document, for each pair `zip` yields. */
  function BuildBatch(docs: seq<string>, embeddings: seq<Embedding>): (batch: seq<VectorRecord>)
    ensures |batch| == if |docs| <= |embeddings| then |docs| else |embeddings|
    ensures forall i :: 0 <= i < |batch| ==> batch[i] == VectorRecord(NatToString(i), embeddings[i], docs[i])
  {
    var n := if |docs| <= |embeddings| then |docs| else |embeddings|;
    seq(n, i requires 0 <= i < n => VectorRecord(NatToString(i), embeddings[i], docs[i]))
  }

  /** Every id of the upsert list is a distinct decimal numeral. */
  lemma BatchIdsDistinct(docs: seq<string>, embeddings: seq<Embedding>)
    ensures var batch := BuildBatch(docs, embeddings);
      forall i, j :: 0 <= i < j < |batch| ==> batch[i].id != batch[j].id
  {
    var batch := BuildBatch(docs, embeddings);
    forall i, j | 0 <= i < j < |batch| ensures batch[i].id != batch[j].id {
      NatToStringInjective(i, j);
    }
  }

  /** The id a row is upserted under is its 0-based position, one less than its entry in `self.ids`. */
  lemma BatchIdsAreZeroBased(docs: seq<string>, embeddings: seq<Embedding>)
    ensures var batch, ids := BuildBatch(docs, embeddings), OneBasedIds(|docs|);
      forall i :: 0 <= i < |batch| ==> AllDigits(batch[i].id) && ParseDigits(batch[i].id) == ids[i] - 1
  {
    var batch := BuildBatch(docs, embeddings);
    forall i | 0 <= i < |batch| ensures AllDigits(batch[i].id) && ParseDigits(batch[i].id) == i {
      ParseNatToString(i);
    }
  }

  /** The ids that occur in a batch. */
  function BatchIds(batch: seq<VectorRecord>): set<string> {
    set i | 0 <= i < |batch| :: batch[i].id
  }

  /** What an upsert of `batch` leaves, writing the records in order so that a later record with the same id wins. */
  function ApplyBatch(m: Entries, batch: seq<VectorRecord>): (r: Entries)
    ensures r.Keys == m.Keys + BatchIds(batch)
    decreases |batch|
  {
    if batch == [] then m
    else
      var init, last := batch[..|batch| - 1], batch[|batch| - 1];
      assert BatchIds(batch) == BatchIds(init) + {last.id} by {
        assert forall i :: 0 <= i < |init| ==> init[i] == batch[i];
      }
      ApplyBatch(m, init)[last.id := Stored(last.values, last.text)]
  }

  /** Upserting into a store is overlaying the batch, read on its own, on the store's entries. */
  lemma {:induction false} ApplyBatchIsOverlay(m: Entries, batch: seq<VectorRecord>)
    ensures ApplyBatch(m, batch) == m + ApplyBatch(map[], batch)
    decreases |batch|
  {
    if batch != [] {
      ApplyBatchIsOverlay(m, batch[..|batch| - 1]);
    }
  }

  /** Upserting the same batch twice leaves what upserting it once leaves, so the stored count does not grow. */
  lemma UpsertIdempotent(m: Entries, batch: seq<VectorRecord>)
    ensures ApplyBatch(ApplyBatch(m, batch), batch) == ApplyBatch(m, batch)
    ensures |ApplyBatch(ApplyBatch(m, batch), batch)| == |ApplyBatch(m, batch)|
  {
    var b := ApplyBatch(map[], batch);
    ApplyBatchIsOverlay(m, batch);
    ApplyBatchIsOverlay(ApplyBatch(m, batch), batch);
    assert (m + b) + b == m + b;
  }

  /** With distinct ids, each record is stored under its own id and the rest of the store is untouched. */
  lemma {:induction false} ApplyDistinctBatch(m: Entries, batch: seq<VectorRecord>)
    requires forall i, j :: 0 <= i < j < |batch| ==> batch[i].id != batch[j].id
    ensures forall i :: 0 <= i < |batch| ==> ApplyBatch(m, batch)[batch[i].id] == Stored(batch[i].values, batch[i].text)
    ensures forall id :: id in m && id !in BatchIds(batch) ==> ApplyBatch(m, batch)[id] == m[id]
    decreases |batch|
  {
    if batch != [] {
      var init, last := batch[..|batch| - 1], batch[|batch| - 1];
      ApplyDistinctBatch(m, init);
      var before := ApplyBatch(m, init);
      assert ApplyBatch(m, batch) == before[last.id := Stored(last.values, last.text)];
      forall i | 0 <= i < |batch| - 1
        ensures ApplyBatch(m, batch)[batch[i].id] == Stored(batch[i].values, batch[i].text)
      {
        assert batch[i] == init[i] && batch[i].id != last.id;
      }
      forall id | id in m && id !in BatchIds(batch)
        ensures ApplyBatch(m, batch)[id] == m[id]
      {
        assert id != last.id;
        assert id !in BatchIds(init) by {
          assert forall i :: 0 <= i < |init| ==> init[i] == batch[i];
        }
      }
    }
  }

  /**
   * After upserting the flow's batch every row i is stored under `str(i)` with its embedding and
   * its text, and the number of stored vectors for a fresh index is the batch length.
   */
  lemma UpsertStoresRows(m: Entries, docs: seq<string>, embeddings: seq<Embedding>)
    ensures var batch := BuildBatch(docs, embeddings);
      && (forall i :: 0 <= i < |batch| ==> ApplyBatch(m, batch)[NatToString(i)] == Stored(embeddings[i], docs[i]))
      && |ApplyBatch(map[], batch)| == |batch|
  {
    var batch := BuildBatch(docs, embeddings);
    BatchIdsDistinct(docs, embeddings);
    ApplyDistinctBatch(m, batch);
    assert |BatchIds(batch)| == |batch| by {
      DistinctIdsCount(batch);
    }
  }

  lemma {:induction false} DistinctIdsCount(batch: seq<VectorRecord>)
    requires forall i, j :: 0 <= i < j < |batch| ==> batch[i].id != batch[j].id
    ensures |BatchIds(batch)| == |batch|
    decreases |batch|
  {
    if batch != [] {
      var init := batch[..|batch| - 1];
      DistinctIdsCount(init);
      assert BatchIds(batch) == BatchIds(init) + {batch[|batch| - 1].id} by {
        assert forall i :: 0 <= i < |init| ==> init[i] == batch[i];
      }
      assert batch[|batch| - 1].id !in BatchIds(init);
    }
  }

  /** The candidates of the service's ranking whose ids are stored in the index, in ranking order. */
  function StoredCandidates(stored: Entries, ranking: seq<Candidate>): (r: seq<Candidate>)
    ensures |r| <= |ranking|
    ensures forall j :: 0 <= j < |r| ==> r[j] in ranking && r[j].id in stored
    ensures forall c :: c in ranking && c.id in stored ==> c in r
    decreases |ranking|
  {
    if ranking == [] then []
    else
      var rest := StoredCandidates(stored, ranking[1..]);
      if ranking[0].id in stored then [ranking[0]] + rest else rest
  }

  /**
   * The matches of `query(top_k=k)`: the first `k` ranked candidates stored in the index, in
   * ranking order, each with its stored text; fewer only when fewer ranked candidates are stored.
   */
  function TopMatches(stored: Entries, ranking: seq<Candidate>, k: nat): (matches: seq<Match>)
    ensures var cs := StoredCandidates(stored, ranking);
      && |matches| == (if k <= |cs| then k else |cs|)
      && forall j :: 0 <= j < |matches| ==> matches[j] == Match(cs[j].id, cs[j].score, stored[cs[j].id].text)
    decreases |ranking|
  {
    if k == 0 || ranking == [] then []
    else
      var c := ranking[0];
      var rest := TopMatches(stored, ranking[1..], if c.id in stored then k - 1 else k);
      if c.id in stored then
        TopMatchesCons(stored, ranking, Match(c.id, c.score, stored[c.id].text), rest);
        [Match(c.id, c.score, stored[c.id].text)] + rest
      else
        rest
  }

  /** A stored head candidate, matched, in front of the matches of the rest of the ranking. */
  lemma TopMatchesCons(stored: Entries, ranking: seq<Candidate>, m: Match, rest: seq<Match>)
    requires ranking != [] && ranking[0].id in stored
    requires m == Match(ranking[0].id, ranking[0].score, stored[ranking[0].id].text)
    requires var cs := StoredCandidates(stored, ranking[1..]);
      |rest| <= |cs| && forall j :: 0 <= j < |rest| ==> rest[j] == Match(cs[j].id, cs[j].score, stored[cs[j].id].text)
    ensures var cs := StoredCandidates(stored, ranking);
      |[m] + rest| <= |cs| && forall j :: 0 <= j < |[m] + rest| ==> ([m] + rest)[j] == Match(cs[j].id, cs[j].score, stored[cs[j].id].text)
  {
    var cs := StoredCandidates(stored, ranking);
    assert cs == [ranking[0]] + StoredCandidates(stored, ranking[1..]);
  }

  /** No more than `k` matches, each a candidate of the ranking whose id is stored, carrying its stored text. */
  lemma TopMatchesAreStoredCandidates(stored: Entries, ranking: seq<Candidate>, k: nat)
    ensures var matches := TopMatches(stored, ranking, k);
      && |matches| <= k && |matches| <= |ranking|
      && forall j :: 0 <= j < |matches| ==>
           && matches[j].id in stored && matches[j].text == stored[matches[j].id].text
           && Candidate(matches[j].id, matches[j].score) in ranking
  {
    var matches := TopMatches(stored, ranking, k);
    var cs := StoredCandidates(stored, ranking);
    forall j | 0 <= j < |matches|
      ensures Candidate(matches[j].id, matches[j].score) in ranking
    {
      assert Candidate(matches[j].id, matches[j].score) == cs[j];
    }
  }

  /** The vector service: named indexes with their descriptors and stored vectors. */
  class VectorStore {
    var indexes: map<string, IndexDescriptor>
    var entries: map<string, Entries>

    ghost predicate Valid()
      reads this
    {
      indexes.Keys == entries.Keys
    }

    constructor ()
      ensures Valid() && indexes == map[] && entries == map[]
    {
      indexes := map[];
      entries := map[];
    }

    /**
     * `create_index(name, dimension, metric)`. `accepted` stands for the service's own decision
     * (plan quota, credentials) on a name it does not hold yet.
     */
    method CreateIndex(name: string, dimension: nat, metric: string, accepted: bool) returns (outcome: Outcome)
      requires Valid()
      modifies this
      ensures Valid()
      ensures name in old(indexes) ==> outcome == Fail(IndexAlreadyExists) && unchanged(this)
      ensures name !in old(indexes) && !accepted ==> outcome == Fail(QuotaExceeded) && unchanged(this)
      ensures name !in old(indexes) && accepted ==>
        && outcome == Pass
        && indexes == old(indexes)[name := IndexDescriptor(dimension, metric)]
        && entries == old(entries)[name := map[]]
    {
      if name in indexes {
        return Fail(IndexAlreadyExists);
      }
      if !accepted {
        return Fail(QuotaExceeded);
      }
      indexes := indexes[name := IndexDescriptor(dimension, metric)];
      entries := entries[name := map[]];
      outcome := Pass;
    }

    /** `Index(name).upsert(vectors=batch)`: overwrite-by-id into an existing index. */
    method Upsert(name: string, batch: seq<VectorRecord>) returns (outcome: Outcome)
      requires Valid()
      modifies this
      ensures Valid() && indexes == old(indexes)
      ensures name !in old(entries) ==> outcome == Fail(IndexNotFound) && entries == old(entries)
      ensures name in old(entries) ==>
        outcome == Pass && entries == old(entries)[name := ApplyBatch(old(entries)[name], batch)]
    {
      if name !in entries {
        return Fail(IndexNotFound);
      }
      entries := entries[name := ApplyBatch(entries[name], batch)];
      outcome := Pass;
    }

    /**
     * `Index(name).query(vector=.., top_k=k, include_metadata=True)`. Which stored vectors are
     * nearest is the service's own ranking, given as `ranking`; the query reads and changes nothing.
     */
    method Query(name: string, vector: Embedding, k: nat, ranking: seq<Candidate>) returns (result: Result<seq<Match>>)
      requires Valid()
      ensures name !in entries ==> result == Err(IndexNotFound)
      ensures name in entries ==> result == Ok(TopMatches(entries[name], ranking, k))
      ensures result.Ok? ==> |result.value| <= k
      ensures result.Ok? ==> forall j :: 0 <= j < |result.value| ==>
        var m := result.value[j];
        m.id in entries[name] && m.text == entries[name][m.id].text && Candidate(m.id, m.score) in ranking
    {
      if name !in entries {
        return Err(IndexNotFound);
      }
      result := Ok(TopMatches(entries[name], ranking, k));
    }
  }

  /** The stored vectors of `name` before an upsert, once `create_index` has run. */
  function EntriesAfterCreate(entries: map<string, Entries>, name: string, accepted: bool): Option<Entries> {
    if name in entries then Some(entries[name]) else if accepted then Some(map[]) else None
  }

  /**
   * The store after `create_index` and the upsert of the documents: the index is created with the
   * embeddings' dimension and the cosine metric when it was missing and the service accepts it, and
   * the upsert overwrites by id when the index is there; otherwise it reports the missing index.
   */
  ghost predicate Indexed(docs: seq<string>, embeddings: seq<Embedding>, accepted: bool,
                          indexes0: map<string, IndexDescriptor>, entries0: map<string, Entries>,
                          indexes1: map<string, IndexDescriptor>, entries1: map<string, Entries>, outcome: Outcome)
    requires embeddings != []
  {
    && indexes1 == (if IndexName in indexes0 || !accepted then indexes0
                    else indexes0[IndexName := IndexDescriptor(|embeddings[0]|, Metric)])
    && match EntriesAfterCreate(entries0, IndexName, accepted)
       case None => outcome == Fail(IndexNotFound) && entries1 == entries0
       case Some(prior) => outcome == Pass && entries1 == entries0[IndexName := ApplyBatch(prior, BuildBatch(docs, embeddings))]
  }

  /**
   * Indexing the same documents a second time, from whatever state the first pass left, leaves the
   * entries as the first pass stored them.
   */
  lemma IndexingTwiceIsIndexingOnce(docs: seq<string>, embeddings: seq<Embedding>, accepted: bool,
                                    indexes0: map<string, IndexDescriptor>, entries0: map<string, Entries>,
                                    indexes1: map<string, IndexDescriptor>, entries1: map<string, Entries>,
                                    indexes2: map<string, IndexDescriptor>, entries2: map<string, Entries>,
                                    outcome1: Outcome, outcome2: Outcome)
    requires embeddings != []
    requires Indexed(docs, embeddings, accepted, indexes0, entries0, indexes1, entries1, outcome1)
    requires Indexed(docs, embeddings, accepted, indexes1, entries1, indexes2, entries2, outcome2)
    ensures entries2 == entries1
  {
    match EntriesAfterCreate(entries0, IndexName, accepted)
    case None =>
    case Some(prior) =>
      UpsertIdempotent(prior, BuildBatch(docs, embeddings));
      assert entries1[IndexName := entries1[IndexName]] == entries1;
  }

  /** The flow object and the artifacts its steps set. */
  class Flow {
    var data: ProcessedDf
    var ids: seq<int>
    var dimension: nat
    var metric: string
    var testSearchVector: Embedding
    var testResults: seq<Match>

    constructor ()
      ensures data.None? && ids == [] && testResults == []
    {
      data := None;
      ids := [];
      dimension := 0;
      metric := "";
      testSearchVector := [];
      testResults := [];
    }

    /**
     * The `create_index` step. `embed` is the sentence embedder; `accepted` is the service's
     * decision on creating a missing index.
     */
    method CreateIndexStep(trigger: Option<Run<ProcessedDf>>, registry: Registry<ProcessedDf>,
                           embed: seq<string> -> seq<Embedding>, store: VectorStore, accepted: bool)
      returns (outcome: Outcome)
      requires store.Valid()
      modifies this, store
      ensures store.Valid()
      ensures testSearchVector == old(testSearchVector) && testResults == old(testResults)
      ensures var found := FindProcessedDf(trigger, registry);
        found.Err? ==> outcome == Fail(found.error) && unchanged(store) && unchanged(this)
      ensures var found := FindProcessedDf(trigger, registry);
        found.Ok? ==> data == found.value
      ensures var found := FindProcessedDf(trigger, registry);
        found.Ok? && found.value.None? ==>
          && outcome == Fail(TypeError) && unchanged(store)
          && ids == old(ids) && dimension == old(dimension) && metric == old(metric)
      ensures var found := FindProcessedDf(trigger, registry);
        found.Ok? && found.value.Some? ==> ids == OneBasedIds(|found.value.value|)
      ensures var found := FindProcessedDf(trigger, registry);
        found.Ok? && found.value.Some? && embed(ContentsColumn(found.value.value)) == [] ==>
          && outcome == Fail(IndexError) && unchanged(store)
          && dimension == old(dimension) && metric == old(metric)
      ensures var found := FindProcessedDf(trigger, registry);
        found.Ok? && found.value.Some? && found.value.value == [] && (forall d :: |embed(d)| == |d|) ==>
          outcome == Fail(IndexError) && unchanged(store)
      ensures var found := FindProcessedDf(trigger, registry);
        found.Ok? && found.value.Some? && embed(ContentsColumn(found.value.value)) != [] ==>
          && dimension == |embed(ContentsColumn(found.value.value))[0]| && metric == Metric
          && Indexed(ContentsColumn(found.value.value), embed(ContentsColumn(found.value.value)), accepted,
                     old(store.indexes), old(store.entries), store.indexes, store.entries, outcome)
    {
      var found := FindProcessedDf(trigger, registry);
      if found.Err? {
        return Fail(found.error);
      }
      data := found.value;
      if data.None? {
        return Fail(TypeError);
      }
      outcome := IndexTable(data.value, embed, store, accepted);
    }

    /**
     * The part of `create_index` after the lookup: embed the `contents` column, record the ids,
     * the dimension and the metric, then create the index and upsert.
     */
    method IndexTable(t: T.Frame<T.ProcessedRow>, embed: seq<string> -> seq<Embedding>, store: VectorStore, accepted: bool)
      returns (outcome: Outcome)
      requires store.Valid()
      modifies this, store
      ensures store.Valid()
      ensures data == old(data) && testSearchVector == old(testSearchVector) && testResults == old(testResults)
      ensures ids == OneBasedIds(|t|)
      ensures embed(ContentsColumn(t)) == [] ==>
        outcome == Fail(IndexError) && unchanged(store) && dimension == old(dimension) && metric == old(metric)
      ensures embed(ContentsColumn(t)) != [] ==>
        && dimension == |embed(ContentsColumn(t))[0]| && metric == Metric
        && Indexed(ContentsColumn(t), embed(ContentsColumn(t)), accepted,
                   old(store.indexes), old(store.entries), store.indexes, store.entries, outcome)
    {
      var docs := ContentsColumn(t);
      ids := OneBasedIds(|docs|);
      var embeddings := embed(docs);
      if embeddings == [] {
        return Fail(IndexError);
      }
      dimension := |embeddings[0]|;
      metric := Metric;
      outcome := SyncIndex(docs, embeddings, store, accepted);
    }

    /**
     * The part of `create_index` after embedding: create the index (any failure is swallowed),
     * then upsert one vector per document.
     */
    method SyncIndex(docs: seq<string>, embeddings: seq<Embedding>, store: VectorStore, accepted: bool)
      returns (outcome: Outcome)
      requires store.Valid() && embeddings != [] && dimension == |embeddings[0]| && metric == Metric
      modifies store
      ensures store.Valid()
      ensures Indexed(docs, embeddings, accepted, old(store.indexes), old(store.entries), store.indexes, store.entries, outcome)
    {
      var created := store.CreateIndex(IndexName, dimension, metric, accepted);
      var vectors := BuildBatch(docs, embeddings);
      outcome := store.Upsert(IndexName, vectors);
    }

    /**
     * The `end` step: embed the test prompt and query the index for its `TopK` nearest vectors.
     * It reads the store and changes nothing in it.
     */
    method EndStep(embed: seq<string> -> seq<Embedding>, store: VectorStore, ranking: seq<Candidate>)
      returns (outcome: Outcome)
      requires store.Valid()
      modifies this
      ensures data == old(data) && ids == old(ids) && dimension == old(dimension) && metric == old(metric)
      ensures embed([TestPrompt]) == [] ==> outcome == Fail(IndexError) && unchanged(this)
      ensures embed([TestPrompt]) != [] ==>
        && testSearchVector == embed([TestPrompt])[0]
        && (IndexName !in store.entries ==> outcome == Fail(IndexNotFound) && testResults == old(testResults))
        && (IndexName in store.entries ==>
          && outcome == Pass
          && testResults == TopMatches(store.entries[IndexName], ranking, TopK)
          && |testResults| <= TopK)
    {
      var probe := embed([TestPrompt]);
      if probe == [] {
        return Fail(IndexError);
      }
      testSearchVector := probe[0];
      var matches := store.Query(IndexName, testSearchVector, TopK, ranking);
      if matches.Err? {
        return Fail(matches.error);
      }
      testResults := matches.value;
      outcome := Pass;
    }
  }

  /**
   * Re-running the indexing step over the same upstream table stores exactly what one run stored:
   * the second `create_index` fails and is swallowed, and the second upsert overwrites every id
   * with the same record.
   */
  method RerunLeavesSameEntries(trigger: Option<Run<ProcessedDf>>, registry: Registry<ProcessedDf>,
                                embed: seq<string> -> seq<Embedding>, accepted: bool)
    returns (first: map<string, Entries>, second: map<string, Entries>)
    ensures first == second
  {
    var store := new VectorStore();
    var flow := new Flow();
    var indexes0, entries0 := store.indexes, store.entries;
    var o1 := flow.CreateIndexStep(trigger, registry, embed, store, accepted);
    var indexes1 := store.indexes;
    first := store.entries;
    var found := FindProcessedDf(trigger, registry);
    var o2 := flow.CreateIndexStep(trigger, registry, embed, store, accepted);
    second := store.entries;
    if found.Ok? && found.value.Some? {
      var docs := ContentsColumn(found.value.value);
      var embeddings := embed(docs);
      if embeddings != [] {
        IndexingTwiceIsIndexingOnce(docs, embeddings, accepted, indexes0, entries0, indexes1, first,
                                    store.indexes, second, o1, o2);
      }
    }
  }
}
