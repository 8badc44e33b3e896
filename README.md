# A verified model of the retrieval and Llama 2 pipeline flows

This project models in Dafny the core of a repository of Metaflow flows and helper scripts. The flows:

- **DataTableProcessor** (`05-section/flow.py`) finds the chunk table of an upstream MarkdownChunker run. Its `start` step skips an unsuccessful run and otherwise:
  - keeps the rows whose word and character counts are strictly above two thresholds;
  - adds a `tld` column;
  - re-indexes the result densely.

  Its `end` step reports the table's shape.
- **PineconeVectorIndexer** (`06-section/flow.py`) reads the processed table of the triggering run, or else of the newest successful run, and embeds its `contents` column. It then creates the `metaflow-documentation` index, swallowing every failure of that call, and upserts one vector per row under the id `str(i)`. Its `end` step embeds the prompt `"aws"` and queries the index for the 3 nearest vectors.
- **The Triton backend** (`llama2-serving/llm/llama2/1/model.py`):
  - builds an instruction/context/response prompt from the first element of every input row;
  - loads the checkpoint named by a fixed model name and run id;
  - answers each request with one row of generated texts.
- **The Triton client** (`llama2-serving/client.py`) cuts the model's answer out of the generated text: the part after `### RESPONSE:` and before the next `###`, stripped. `time_single_request` instead cuts after the Llama 2 chat tag `[/INST]`.
- **The fine-tuning script** (`llama2-fine-tuning/model.py`, `flow.py`):
  - lays the instruction dataset out in the same template;
  - optionally keeps one shard of it;
  - saves the model and tokenizer under `dst_model_name`, which are the directories the server loads from when `dst_model_name` is `llama-2-7b-dolly15k`.

How each part is written:

- Pure transformations are functions over datatypes:
  - data frames are sequences of labelled rows;
  - tensors are sequences of rows of strings;
  - Python's `str.split`, `str.strip` and `str(int)` are modelled on `seq<char>` in the modules `Text` and `Decimal`.
- The flow steps are methods of classes whose fields are the flow artifacts.
- The vector service is a `VectorStore` object that holds index descriptors and, per index, a map from vector id to stored values and text. `upsert` overwrites by id.
- Two loops of the source are `while` loops with invariants:
  - `execute` iterates over the requests;
  - `get_refactored_dolly15K_format` iterates over the dataset.
- The list comprehensions, and the loop of `batch_inference` that pairs prompts with answers, only compute values; they are recursive functions (`ServingClient.ExtractColumns`, `ServingClient.PrintedPairs`).
- The source's inputs from outside are parameters:
  - the run registry and the trigger;
  - `tldextract`, the sentence embedder and the model's generation;
  - the service's acceptance of a new index and its nearest-neighbour ranking;
  - the files in the server's working directory.

Behaviour of the code that the model makes explicit:

- DataTableProcessor falls back to the newest upstream run whatever its status, not the newest successful one. A failed newest run is therefore skipped even when an earlier run succeeded (`Runs.LatestRunMayBeUnsuccessful`).
- When the upstream run is skipped, `processed_df` is `None` and `end` raises on `None.shape`. A run of the flow succeeds exactly when its upstream run was found and succeeded (`DataTableProcessor.SuccessMeansProcessed`).
- The indexer records `self.ids` as 1-based, but upserts under the 0-based position (`VectorIndexer.BatchIdsAreZeroBased`).
- `create_index` errors of every kind are swallowed, so a second run reuses the index the first one created; the comment at `06-section/flow.py:64` calls the upsert idempotent (`VectorIndexer.IndexingTwiceIsIndexingOnce`).
- The flow itself never compares the embedding dimension with that of an existing index; only the service could refuse such vectors, which this model does not cover.
- An empty processed table makes `create_index` raise `IndexError` at `embeddings[0]`, before any index is created.
- The version-1 backend's template never contains `[/INST]`. The extraction `time_single_request` applies therefore raises `IndexError` on that backend's output unless the user input or the generated continuation contains the tag (`ServingClient.InstTagAbsentFromTemplate`). `time_single_request` itself asks for model version 2, whose backend is not in the repository.
- The response marker's round trip holds: `chat_iter` returns the model's continuation, stripped, whenever the user input holds no `### RESPONSE:` and the continuation holds no `###` (`ServingClient.ChatRoundTrip`).

## Model

| member | source | states |
|---|---|---|
| Runs.LatestRun | 05-section/flow.py:97-98 | `latest_run` is `None` exactly for a flow without runs; otherwise it is one of its runs with the largest id |
| Runs.LatestSuccessfulRun | 06-section/flow.py:22 | `None` exactly when no run succeeded; otherwise a successful run with no successful run after it |
| Runs.TriggerOrLatestRun | 05-section/flow.py:93-98 | the triggering run if any; otherwise the newest run of the parent flow; an unknown flow raises `FlowNotFound`, a flow without runs `AttributeError` |
| Runs.TriggerOrLatestSuccessfulRun | 06-section/flow.py:19-22 | the triggering run if any; otherwise the newest successful run of DataTableProcessor (successful, with no successful run after it); an unknown flow raises `FlowNotFound`, and otherwise it fails exactly when no run succeeded, with `AttributeError` |
| Runs.FallbacksAgreeWhenNewestSucceeded | 05-section/flow.py:98 | without a trigger the two flows' fallbacks pick the same run iff the newest run succeeded |
| Runs.LatestRunMayBeUnsuccessful | 05-section/flow.py:98-102 | a concrete history in which DataTableProcessor picks a failed run while the indexer would pick the earlier successful one |
| DataTableProcessor.KeptPositions | 05-section/flow.py:114-117 | the positions a row mask keeps: strictly increasing, in range, and containing exactly the positions whose row passes |
| DataTableProcessor.Select | 05-section/flow.py:114 | `df[mask]` keeps no more rows than the frame, and only rows the mask accepts |
| DataTableProcessor.SelectAtKeptPositions | 05-section/flow.py:114 | masking yields the frame's rows at the kept positions, in order, labels included |
| DataTableProcessor.SelectAppend | 05-section/flow.py:114 | masking distributes over concatenation of frames |
| DataTableProcessor.SelectTwice | 05-section/flow.py:114-117 | masking by one mask and then another equals masking once by their conjunction |
| DataTableProcessor.SelectAll | 05-section/flow.py:114 | a mask that accepts every row returns the frame unchanged |
| DataTableProcessor.SelectIdempotent | 05-section/flow.py:114 | masking twice by the same mask equals masking once |
| DataTableProcessor.SelectWithin | 05-section/flow.py:114 | every row a mask keeps is a row of the frame |
| DataTableProcessor.FilterKeepsRetained | 05-section/flow.py:113-117 | the two threshold masks keep exactly the rows with both counts strictly above their thresholds, as an order-preserving subsequence |
| DataTableProcessor.FilterIdempotent | 05-section/flow.py:113-117 | re-filtering a filtered table with the same thresholds changes nothing |
| DataTableProcessor.FilterByCounts | 05-section/flow.py:114-117 | the filtered table is no longer than the input and holds only input rows whose counts are both strictly above the thresholds |
| DataTableProcessor.AddTld | 05-section/flow.py:119-120 | every row keeps its label and columns and gains `tld == "https://" + fqdn(page_url)` |
| DataTableProcessor.ResetIndex | 05-section/flow.py:122-123 | `reset_index` moves each row's label into the `index` column and labels the rows 0..n-1 |
| DataTableProcessor.SetRangeIndex | 05-section/flow.py:124 | `index = range(len)` relabels the rows by position and keeps their contents |
| DataTableProcessor.RangeIndexAfterReset | 05-section/flow.py:122-124 | after `reset_index` the frame already has the range index, so the explicit assignment changes nothing |
| DataTableProcessor.Process | 05-section/flow.py:113-124 | the processed table is range-indexed, no longer than the input, and each row is a retained input row carried with its upstream label |
| DataTableProcessor.ProcessSpec | 05-section/flow.py:113-124 | the processed table has one row per retained upstream row, in upstream order, range-labelled, carrying the upstream label, columns and tld |
| DataTableProcessor.ProcessedIndexIncreases | 05-section/flow.py:122-124 | for a range-indexed upstream table the `index` column is strictly increasing and within the upstream size |
| DataTableProcessor.ProcessEmpty | 05-section/flow.py:113-124 | an empty upstream table gives an empty processed table |
| DataTableProcessor.StartResult | 05-section/flow.py:93-144 | `start` raises exactly what finding the upstream run raises; `processed_df` is `None` exactly for an unsuccessful run, and otherwise a range-indexed table of retained upstream rows |
| DataTableProcessor.EndResult | 05-section/flow.py:152-154 | `end` raises `AttributeError` exactly when `processed_df` is `None`, and otherwise reports the row count |
| DataTableProcessor.SuccessMeansProcessed | 05-section/flow.py:93-154 | a flow run succeeds iff its upstream run was found and was successful, and then `processed_df` is the processed upstream table |
| DataTableProcessor.WorkedFrame | 05-section/flow.py:42-54 | the example table: five rows labelled 0 to 4 with 100 characters each |
| DataTableProcessor.WorkedExample | 05-section/flow.py:42-54 | with the default thresholds 10 and 25, word counts 5, 11, 20, 10, 50 keep exactly the rows labelled 1, 2, 4 |
| DataTableProcessor.WorkedKeptPositions | 05-section/flow.py:114-117 | in that example exactly positions 1, 2 and 4 pass both thresholds |
| DataTableProcessor.IncreasingSameElements | 05-section/flow.py:122-124 | two strictly increasing label sequences with the same elements are equal |
| DataTableProcessor.Flow.constructor | 05-section/flow.py:21-54 | the parameters take the given values (defaults `MarkdownChunker`, 100, 10, 25) and `processed_df` is unset |
| DataTableProcessor.Flow.Start | 05-section/flow.py:91-144 | raises what finding the upstream run raises; otherwise sets `processed_df` to `None` for an unsuccessful run, else to the processed table |
| DataTableProcessor.Flow.End | 05-section/flow.py:148-154 | raises `AttributeError` iff `processed_df` is `None`; otherwise reports its row count |
| Decimal.DigitChar | 06-section/flow.py:67 | the digit character of a value below 10 |
| Decimal.NatToString | 06-section/flow.py:67 | `str(i)` is a non-empty string of digits without a leading zero |
| Decimal.ParseNatToString | 06-section/flow.py:67 | `int(str(i)) == i` |
| Decimal.NatToStringInjective | 06-section/flow.py:67 | distinct numbers give distinct ids |
| VectorIndexer.FindProcessedDf | 06-section/flow.py:17-23 | the triggering run's `processed_df`, else that of the newest successful DataTableProcessor run (no successful run after it); `FlowNotFound` for an unknown flow, and otherwise `AttributeError` exactly when none succeeded |
| VectorIndexer.ContentsColumn | 06-section/flow.py:44 | the `contents` column in row order |
| VectorIndexer.OneBasedIds | 06-section/flow.py:45 | `list(range(1, n + 1))` |
| VectorIndexer.BuildBatch | 06-section/flow.py:66-69 | `zip` truncates to the shorter list; element i is id `str(i)` with the i-th embedding and the i-th document |
| VectorIndexer.BatchIdsDistinct | 06-section/flow.py:66-69 | the upserted ids are pairwise distinct |
| VectorIndexer.BatchIdsAreZeroBased | 06-section/flow.py:45-69 | each upserted id parses to the row's entry in `self.ids` minus one |
| VectorIndexer.ApplyBatch | 06-section/flow.py:70 | an upsert leaves exactly the old ids plus the batch's ids |
| VectorIndexer.ApplyBatchIsOverlay | 06-section/flow.py:70 | an upsert overlays the batch, read on its own, on the existing entries |
| VectorIndexer.UpsertIdempotent | 06-section/flow.py:64-70 | upserting the same batch twice leaves what one upsert leaves, and the stored count does not grow |
| VectorIndexer.ApplyDistinctBatch | 06-section/flow.py:70 | with distinct ids each record is stored under its id, and entries outside the batch are untouched |
| VectorIndexer.UpsertStoresRows | 06-section/flow.py:66-70 | after the upsert, row i is stored under `str(i)` with its embedding and text; a fresh index then holds one vector per row |
| VectorIndexer.DistinctIdsCount | 06-section/flow.py:66-70 | a batch with distinct ids has as many ids as records |
| VectorIndexer.StoredCandidates | 06-section/flow.py:94 | the ranked candidates whose ids are stored: no more than the ranking, only stored ranked candidates, and every stored ranked candidate |
| VectorIndexer.TopMatches | 06-section/flow.py:94 | the first `min(k, n)` of the n stored ranked candidates, in ranking order, each with its score and stored text |
| VectorIndexer.TopMatchesAreStoredCandidates | 06-section/flow.py:94 | at most k matches, each a stored vector with its stored text, taken from the service's ranking |
| VectorIndexer.IndexingTwiceIsIndexingOnce | 06-section/flow.py:51-70 | indexing the same documents again, from the state one indexing left, leaves the stored entries unchanged |
| VectorIndexer.VectorStore.constructor | 06-section/flow.py:39 | a service with no indexes |
| VectorIndexer.VectorStore.CreateIndex | 06-section/flow.py:52-60 | an existing name or a refused request fails and changes nothing; otherwise the index is added, empty, with its dimension and metric |
| VectorIndexer.VectorStore.Upsert | 06-section/flow.py:65-70 | a missing index fails and changes nothing; otherwise that index's entries become the upsert of the batch |
| VectorIndexer.VectorStore.Query | 06-section/flow.py:93-95 | a missing index fails; otherwise the top-k stored matches of the ranking, each with its stored text |
| VectorIndexer.Flow.constructor | 06-section/flow.py:11-15 | no artifacts set yet |
| VectorIndexer.Flow.CreateIndexStep | 06-section/flow.py:33-72 | a failed input lookup changes nothing; a `None` table sets only `data` and raises `TypeError`; no embeddings (always the case for an empty table) set `data` and `ids` and raise `IndexError` before the store is touched; otherwise `data`, the 1-based `ids`, the first embedding's `dimension` and `cosine` are set and the store is the index created (if missing and accepted) with the batch upserted; the test artifacts are never touched |
| VectorIndexer.Flow.IndexTable | 06-section/flow.py:44-70 | `ids` become 1-based row numbers; no embeddings raise `IndexError` before the store is touched; otherwise `dimension` is the first embedding's length, `metric` is `cosine`, and the store is indexed as `SyncIndex` states |
| VectorIndexer.Flow.SyncIndex | 06-section/flow.py:51-70 | any `create_index` failure is swallowed, and the upsert of the batch then applies iff the index exists |
| VectorIndexer.Flow.EndStep | 06-section/flow.py:77-95 | only the probe vector and the results may change; no probe embedding raises `IndexError` and assigns nothing; otherwise the probe vector is stored and the results become the top 3 stored matches, or `IndexNotFound` leaves them as they were |
| VectorIndexer.RerunLeavesSameEntries | 06-section/flow.py:64-70 | running `create_index` twice over the same input stores the same entries as once |
| ServingModel.FormatPrompt | llama2-serving/llm/llama2/1/model.py:40-46 | the instruction, context and response can each be read back at a fixed offset, right after its header, and the prompt ends with a newline and indentation |
| ServingModel.GetPrompt | llama2-serving/llm/llama2/1/model.py:73-82 | the prompt starts with the instruction header and the user input and ends with `### RESPONSE: ` followed only by a newline and indentation |
| ServingModel.RequestPrompts | llama2-serving/llm/llama2/1/model.py:91-93 | one prompt per row from its first element and the empty context; `IndexError` iff some row is empty |
| ServingModel.Respond | llama2-serving/llm/llama2/1/model.py:93-122 | a request is answered iff a model is loaded and its prompts are built, with one row holding the generated texts |
| ServingModel.TritonPythonModel.constructor | llama2-serving/llm/llama2/1/model.py:49 | nothing loaded |
| ServingModel.TritonPythonModel.Initialize | llama2-serving/llm/llama2/1/model.py:50-71 | a missing `<model>_<run>.tar` raises and changes nothing; otherwise tokenizer and model come from the checkpoint's two directories, task `text-generation`, max length 200 |
| ServingModel.TritonPythonModel.Execute | llama2-serving/llm/llama2/1/model.py:84-125 | one response per request in order, each what `Respond` gives; on failure, the exception of the first request that fails |
| Text.StripLeft | llama2-serving/client.py:68 | the longest suffix that does not start with whitespace, with only whitespace before it |
| Text.StripRight | llama2-serving/client.py:68 | the longest prefix that does not end with whitespace, with only whitespace after it |
| Text.Strip | llama2-serving/client.py:68 | the result is no longer than the input and neither starts nor ends with whitespace |
| Text.StripIsSlice | llama2-serving/client.py:68 | the stripped text is a slice of the input with only whitespace around it |
| Text.StripPadded | llama2-serving/client.py:68 | stripping ignores whitespace padding on either side |
| Text.StripFree | llama2-serving/client.py:67-68 | stripping introduces no occurrence of a pattern |
| Text.Find | llama2-serving/client.py:66 | the first occurrence of the separator, or none at all |
| Text.Split | llama2-serving/client.py:66-67 | at least one piece, and no piece contains the separator |
| Text.SplitJoin | llama2-serving/client.py:66-67 | joining the pieces with the separator gives the string back |
| Text.SplitAtFirst | llama2-serving/client.py:66 | a string whose only early separator is right after `a` splits into `a` and the split of the rest |
| Text.SplitHasSecondPiece | llama2-serving/client.py:66 | `split(sep)[1]` exists iff `sep` occurs; otherwise the split is the string alone |
| Text.FirstPiece | llama2-serving/client.py:66 | `split(sep)[0]`: the whole string when `sep` is absent, else the prefix before the first occurrence |
| Text.AfterFirst | llama2-serving/client.py:66 | the suffix after the first separator, so that the first piece, the separator and it make up the string |
| Text.SplitPieces | llama2-serving/client.py:66 | `split(sep)[0]` is the first piece, and `split(sep)[1]`, when present, is the first piece of what follows the first separator |
| ServingClient.ExtractResponse | llama2-serving/client.py:63-69 | `IndexError` iff the text lacks `### RESPONSE:`; otherwise the text after the first marker, up to the next marker and then up to the first `###`, stripped: it contains no `###` and no surrounding whitespace |
| ServingClient.ExtractInstResponse | llama2-serving/client.py:43-48 | `IndexError` iff the text lacks `[/INST]`; otherwise the text between the first and the second tag (or the end), stripped: it contains no `[/INST]` and no surrounding whitespace |
| ServingClient.FirstText | llama2-serving/client.py:44 | `[0][0]` of the output tensor, raising iff the tensor or its first row is empty |
| ServingClient.ChatIter | llama2-serving/client.py:53-70 | answers iff the first text exists and contains the response marker, and then answers its extraction |
| ServingClient.TimeSingleRequest | llama2-serving/client.py:43-48 | the `llm_response` the function binds (and discards, returning `None`) exists iff the first text exists and contains `[/INST]`, and is then its extraction |
| ServingClient.Transpose | llama2-serving/client.py:93 | `.T` of a rows×cols array: entry (j, i) is entry (i, j) |
| ServingClient.ExtractColumns | llama2-serving/client.py:91-94 | one answer per column, in order, from each column's first text; raises `IndexError` iff a column is empty or its text is rejected |
| ServingClient.BatchInference | llama2-serving/client.py:73-102 | one answer per column; succeeds iff every text of the first row holds the response marker, and each answer is that text's extraction |
| ServingClient.PrintedPairs | llama2-serving/client.py:96-100 | `zip` stops at the shorter list, pairing each prompt's first element with its answer; an empty prompt row raises |
| ServingClient.FormatPromptAtMarker | llama2-serving/llm/llama2/1/model.py:40-46 | the template is its head, the response marker, and the response with its padding |
| ServingClient.PromptHeadFree | llama2-serving/llm/llama2/1/model.py:40-46 | the template's head holds no response marker, even one that overlaps the marker itself |
| ServingClient.SplitAtTemplateMarker | llama2-serving/client.py:66 | splitting a template at the response marker yields the head and the split of the rest |
| ServingClient.ExtractAfterTemplateMarker | llama2-serving/client.py:63-69 | the client's extraction of head, marker and rest is the rest, stripped, when the rest holds no `###` |
| ServingClient.ExtractFormattedResponse | llama2-serving/client.py:63-69 | the client's extraction inverts the server's template: it gives the response stripped |
| ServingClient.ExtractGeneratedContinuation | llama2-serving/client.py:63-69 | the client's extraction of a prompt followed by a continuation without `###` is the continuation, stripped |
| ServingClient.ChatRoundTrip | llama2-serving/client.py:53-70 | a one-prompt request answered by a model that continues its prompt comes back from `chat_iter` as the continuation, stripped |
| ServingClient.SecondMarkerCutsFirst | llama2-serving/client.py:66-68 | a text in which `###` occurs inside the second `### RESPONSE:` is cut at that second marker first, so the answer keeps the `#` before it |
| ServingClient.InstTagAbsentFromTemplate | llama2-serving/client.py:43-48 | on the version-1 backend's prompt and a continuation without `[/INST]`, the extraction `time_single_request` applies raises `IndexError` |
| ServingClient.InstHeadFree | llama2-serving/llm/llama2/1/model.py:40-43 | the instruction and context lines of a served prompt hold no `[/INST]` |
| ServingClient.InstTailFree | llama2-serving/llm/llama2/1/model.py:44-46 | the empty response section holds no `[/INST]` |
| ServingClient.InstAnswerAfterTag | llama2-serving/client.py:43-48 | a first text made of any text without the tag, a `[/INST]` tag and what follows it gives as `llm_response` what follows, up to any later tag, stripped |
| FineTuning.FormatPrompt | llama2-fine-tuning/model.py:24-30 | training lays each record out exactly as the server's template does |
| FineTuning.NumShards | llama2-fine-tuning/model.py:39 | `int(1 / f)` is at least 1 and is the floor of `1 / f` |
| FineTuning.ShardZero | llama2-fine-tuning/model.py:40 | `shard(k, 0)` has `ceil(n / k)` records, the j-th being record `j * k` |
| FineTuning.ShardWithin | llama2-fine-tuning/model.py:40 | a shard holds no more records than the dataset, and only records of it |
| FineTuning.ShardOfOne | llama2-fine-tuning/model.py:39-40 | a fraction of 1 keeps the whole dataset |
| FineTuning.SelectDataset | llama2-fine-tuning/model.py:37-40 | a falsy fraction (`None` or 0) keeps everything; a truthy one outside `(0, 1]` fails the assertion; otherwise exactly shard 0 of k records apart, k the floor of `1 / f`, no larger than the dataset and made of its records |
| FineTuning.RefactoredDolly15KFormat | llama2-fine-tuning/model.py:33-48 | the assertion's failure is reported; otherwise `text` and `category` are aligned with the selected records, each the record's prompt and category |
| FineTuning.LayOut | llama2-fine-tuning/model.py:42-45 | `text` and `category` have one entry per record, in order: its prompt in the shared template and its category |
| FineTuning.SavePaths | llama2-fine-tuning/model.py:125-126 | the model and the tokenizer are saved in two distinct sub-directories, `model` and `tokenizer`, of the directory named after the model |
| FineTuning.OutPath | llama2-fine-tuning/flow.py:50 | the uploaded archive is named by the model name, `_`, the run id and `.tar` |
| FineTuning.ServingLoadsSavedCheckpoint | llama2-fine-tuning/model.py:125-128 | the server's checkpoint paths are the saved ones iff the model names agree |
| FineTuning.ServingArchiveIsRunOutput | llama2-fine-tuning/flow.py:50 | the archive the server opens is the training output iff the run id is `210840` |

## Left out

- Metaflow itself is not modelled: decorators, scheduling, cards, plots, histograms and printing. Run lookup is reduced to a registry of run histories passed as a parameter.
- `save_processed_df` and `n_bins` are kept only as parameters. The saving code is commented out in the source, and the bins feed only the plots.
- The external dependencies are parameters and are not computed:
  - `tldextract`, whose result is the `fqdn` function;
  - the sentence embedder, whose result is `embed` (its model name `paraphrase-MiniLM-L6-v2` is therefore not modelled);
  - the Pinecone service's quota and credentials decision, whose result is `accepted`;
  - its nearest-neighbour ranking and scores, whose result is `ranking`.

  Credentials and the client object are not modelled.
- Floating point is not modelled. Embedding components are reals carried unchanged. `int(1 / f)` is the exact floor of the real `1 / f`, so rounding and NaN are not covered.
- FineTuning.NumShards: the 64-bit float rounding of `1 / f` is not modelled.
- The Triton server side is not modelled: tensors are rows of strings without byte encoding or UTF-8 decoding. Tokenization, `model.generate` with its sampling parameters, and `batch_decode` are one function `generate`.
- `extract_tar_bytes` and the file system are reduced to the set of file names present. The S3 path `PUBLIC_S3_OBJ` is used only by commented-out code and is not modelled.
- HTTP transport, `time.perf_counter` timing and `user_text_to_inputs` (including its first, shadowed definition) are not part of this model. The client functions start from the `generated_text` tensor.
- The fine-tuning training loop, quantisation, LoRA and trainer configuration, `params.py` and the S3 upload are not part of this model; only the paths they produce are. `load_dataset` is a parameter: the dataset is a sequence of records.
- `04-section/flow.py` and `llama2-serving/save-checkpt.py` are not part of this model.
- `finalize` of the Triton model only clears a field and is not modelled.
- VectorIndexer.VectorStore.Upsert: accepts vectors of any length. The service's own check that they match the index dimension is not modelled, so a dimension mismatch never fails the upsert here.
- ServingClient.TimeSingleRequest: `time_single_request` queries `model_version="2"`, a backend the repository does not hold. The model applies its extraction to any generated tensor and relates it only to the version-1 backend's template.
- DataTableProcessor.ResetIndex: the new column is always named `index`. pandas names it after the upstream index's name when it has one; an unnamed index goes to `index`, or to `level_0` when an `index` column already exists, and `ValueError` is raised only when that chosen name is itself already a column. Neither the naming nor the error is modelled.
- ServingModel.TritonPythonModel.Execute: a request whose prompts are built while no model is loaded fails with `AttributeError`, as `self.tokenizer` would be missing. Errors the tokenizer or the GPU might raise are not modelled.
