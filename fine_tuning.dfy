/**
 * The fine-tuning side: the training set is the instruction dataset laid out with the same
 * prompt template the server uses, optionally cut down to one shard, and the trained model is
 * saved under `dst_model_name`, which is where the server reads it back when that name is
 * `llama-2-7b-dolly15k`.
 */
module FineTuning {
  import opened Wrappers
  import S = ServingModel

  /** One record of the instruction dataset. */
  datatype Example = Example(instruction: string, context: string, response: string, category: string)

  /** The columns handed to the trainer: `{"text": [...], "category": [...]}`. */
  datatype Samples = Samples(text: seq<string>, category: seq<string>)

  /** The fine-tuning copy of the template text. */
  const InstructionHead := "### INSTRUCTION: "
  const ContextHead := "\n\n    ### CONTEXT: "
  const Spacer := "\n                            \n    "
  const ResponseHead := "### RESPONSE: "
  const PromptTail := "\n    "

  /** `format_prompt(example)` of the training code: the same layout the server's template gives. */
  function FormatPrompt(e: Example): (p: string)
    ensures p == S.FormatPrompt(e.instruction, e.context, e.response)
  {
    assert InstructionHead == S.InstructionHead && ContextHead == S.ContextHead;
    assert Spacer == S.Spacer && ResponseHead == S.ResponseHead && PromptTail == S.PromptTail;
    InstructionHead + e.instruction + ContextHead + e.context + Spacer + ResponseHead + e.response + PromptTail
  }

  /** Python truthiness of `dataset_fraction`: `None` and `0` are false. */
  predicate Truthy(fraction: Option<real>) {
    fraction.Some? && fraction.value != 0.0
  }

  /** `int(1 / f)` for a fraction in `(0, 1]`, computed exactly. */
  function NumShards(f: real): (k: nat)
    requires 0.0 < f <= 1.0
    ensures k >= 1
    ensures k as real <= 1.0 / f < (k + 1) as real
  {
    assert 1.0 / f >= 1.0 by {
      assert (1.0 / f) * f == 1.0;
    }
    (1.0 / f).Floor
  }

  /** `dataset.shard(k, 0)`: every `k`-th record, starting with the first. */
  function ShardZero<T>(xs: seq<T>, k: nat): (r: seq<T>)
    requires k >= 1
    ensures |r| == (|xs| + k - 1) / k
    ensures forall j :: 0 <= j < |r| ==> j * k < |xs| && r[j] == xs[j * k]
    decreases |xs|
  {
    if xs == [] then
      DivUnique(k - 1, k, 0, k - 1);
      []
    else if |xs| <= k then
      DivUnique(|xs| + k - 1, k, 1, |xs| - 1);
      [xs[0]]
    else
      var rest := ShardZero(xs[k..], k);
      ShardCons(xs, k, rest);
      [xs[0]] + rest
  }

  /** The first record in front of the shard of the records from position `k` on is the shard of all. */
  lemma ShardCons<T>(xs: seq<T>, k: nat, rest: seq<T>)
    requires 1 <= k < |xs|
    requires |rest| == (|xs| - k + k - 1) / k
    requires forall j :: 0 <= j < |rest| ==> j * k < |xs| - k && rest[j] == xs[k..][j * k]
    ensures |[xs[0]] + rest| == (|xs| + k - 1) / k
    ensures forall j :: 0 <= j < |[xs[0]] + rest| ==> j * k < |xs| && ([xs[0]] + rest)[j] == xs[j * k]
  {
    DivPlusOne(|xs| - k + k - 1, k);
    ShiftStride(xs, k, rest);
  }

  /** The records every `k`-th from position `k` on are those every `k`-th of the tail, shifted by one. */
  lemma ShiftStride<T>(xs: seq<T>, k: nat, rest: seq<T>)
    requires 1 <= k < |xs|
    requires forall j :: 0 <= j < |rest| ==> j * k < |xs| - k && rest[j] == xs[k..][j * k]
    ensures forall j :: 1 <= j < |rest| + 1 ==> j * k < |xs| && rest[j - 1] == xs[j * k]
  {
    forall j | 1 <= j < |rest| + 1 ensures j * k < |xs| && rest[j - 1] == xs[j * k] {
      assert (j - 1) * k + k == j * k;
    }
  }

  lemma MulAtLeast(d: int, k: int)
    requires d >= 1 && k > 0
    ensures d * k >= k
  {
    assert d * k == (d - 1) * k + k;
    assert (d - 1) * k >= 0;
  }

  /** Euclidean division is determined by a quotient and a remainder in range. */
  lemma DivUnique(x: int, k: int, m: int, r: int)
    requires k > 0 && 0 <= r < k && x == m * k + r
    ensures x / k == m
  {
    var q, s := x / k, x % k;
    assert x == q * k + s;
    assert (m - q) * k == s - r;
    if m > q {
      MulAtLeast(m - q, k);
    } else if m < q {
      MulAtLeast(q - m, k);
    }
  }

  lemma DivPlusOne(a: int, k: int)
    requires a >= 0 && k > 0
    ensures (a + k) / k == a / k + 1
  {
    DivUnique(a + k, k, a / k + 1, a % k);
  }

  /** A shard holds no more records than the dataset, and only records of it. */
  lemma {:induction false} ShardWithin<T>(xs: seq<T>, k: nat)
    requires k >= 1
    ensures |ShardZero(xs, k)| <= |xs|
    ensures forall e :: e in ShardZero(xs, k) ==> e in xs
    decreases |xs|
  {
    if |xs| > k {
      ShardWithin(xs[k..], k);
      assert ShardZero(xs, k) == [xs[0]] + ShardZero(xs[k..], k);
      assert forall e :: e in xs[k..] ==> e in xs;
    }
  }

  /** One shard of size one is the whole dataset. */
  lemma ShardOfOne<T>(xs: seq<T>)
    ensures ShardZero(xs, 1) == xs
  {
  }

  /**
   * The records `get_refactored_dolly15K_format` iterates: all of them for a falsy fraction; for
   * a truthy one, `AssertionError` unless `0 < f <= 1`, otherwise shard 0 of `int(1 / f)`.
   */
  function SelectDataset(dataset: seq<Example>, fraction: Option<real>): (r: Result<seq<Example>>)
    ensures !Truthy(fraction) ==> r == Ok(dataset)
    ensures Truthy(fraction) && !(0.0 < fraction.value <= 1.0) ==> r == Err(AssertionError)
    ensures Truthy(fraction) && 0.0 < fraction.value <= 1.0 ==> r.Ok? && |r.value| <= |dataset|
    ensures Truthy(fraction) && 0.0 < fraction.value <= 1.0 ==>
      exists k: nat :: k >= 1 && k as real <= 1.0 / fraction.value < (k + 1) as real && r == Ok(ShardZero(dataset, k))
    ensures r.Ok? ==> forall e :: e in r.value ==> e in dataset
  {
    if !Truthy(fraction) then Ok(dataset)
    else if !(0.0 < fraction.value <= 1.0) then Err(AssertionError)
    else
      var k := NumShards(fraction.value);
      ShardWithin(dataset, k);
      Ok(ShardZero(dataset, k))
  }

  /**
   * `get_refactored_dolly15K_format`: one `text` and one `category` per selected record, appended
   * side by side in iteration order.
   */
  method RefactoredDolly15KFormat(dataset: seq<Example>, fraction: Option<real>) returns (r: Result<Samples>)
    ensures r.Err? <==> SelectDataset(dataset, fraction).Err?
    ensures r.Err? ==> r.error == AssertionError
    ensures r.Ok? ==>
      var selected := SelectDataset(dataset, fraction).value;
      && |r.value.text| == |r.value.category| == |selected|
      && (forall i :: 0 <= i < |selected| ==> r.value.text[i] == FormatPrompt(selected[i]))
      && (forall i :: 0 <= i < |selected| ==> r.value.category[i] == selected[i].category)
  {
    var selection := SelectDataset(dataset, fraction);
    if selection.Err? {
      return Err(selection.error);
    }
    var samples := LayOut(selection.value);
    r := Ok(samples);
  }

  /** The loop of `get_refactored_dolly15K_format`: each record's prompt and category, appended in order. */
  method LayOut(examples: seq<Example>) returns (samples: Samples)
    ensures |samples.text| == |samples.category| == |examples|
    ensures forall i :: 0 <= i < |examples| ==> samples.text[i] == FormatPrompt(examples[i])
    ensures forall i :: 0 <= i < |examples| ==> samples.category[i] == examples[i].category
  {
    var text: seq<string> := [];
    var category: seq<string> := [];
    var i := 0;
    while i < |examples|
      invariant 0 <= i <= |examples|
      invariant |text| == i && |category| == i
      invariant forall j :: 0 <= j < i ==> text[j] == FormatPrompt(examples[j])
      invariant forall j :: 0 <= j < i ==> category[j] == examples[j].category
    {
      text := text + [FormatPrompt(examples[i])];
      category := category + [examples[i].category];
      i := i + 1;
    }
    samples := Samples(text, category);
  }

  /**
   * Where `main` saves the trained model and tokenizer: two distinct sub-directories,
   * `dst + "/model"` and `dst + "/tokenizer"`, of the directory named after the model.
   */
  function SavePaths(dstModelName: string): (paths: (string, string))
    ensures var dir := dstModelName + "/";
      && paths.0 != paths.1
      && |paths.0| > |dir| && paths.0[..|dir|] == dir && paths.0[|dir|..] == "model"
      && |paths.1| > |dir| && paths.1[..|dir|] == dir && paths.1[|dir|..] == "tokenizer"
  {
    var dir := dstModelName + "/";
    assert dstModelName + "/model" == dir + "model" && dstModelName + "/tokenizer" == dir + "tokenizer";
    (dstModelName + "/model", dstModelName + "/tokenizer")
  }

  /**
   * The name the training flow uploads the archive under: `dst + "_" + run_id + ".tar"`, a tar
   * archive whose name starts with the model name and ends with the run id.
   */
  function OutPath(dstModelName: string, runId: string): (name: string)
    ensures var stem := dstModelName + "_";
      && |name| == |stem| + |runId| + 4
      && name[..|stem|] == stem && name[|stem|..|stem| + |runId|] == runId && name[|name| - 4..] == ".tar"
  {
    dstModelName + "_" + runId + ".tar"
  }

  /** The server loads from exactly the directories training writes, when the model names agree. */
  lemma {:induction false} ServingLoadsSavedCheckpoint(dstModelName: string)
    ensures SavePaths(dstModelName) == (S.CheckpointModelPath, S.CheckpointTokenizerPath) <==> dstModelName == S.DstModelName
  {
    if SavePaths(dstModelName).0 == S.CheckpointModelPath {
      var a, b := dstModelName + "/model", S.DstModelName + "/model";
      assert |dstModelName| == |S.DstModelName|;
      assert a[..|dstModelName|] == dstModelName && b[..|S.DstModelName|] == S.DstModelName;
    }
  }

  /** The archive the server opens is the one the training run with id `210840` uploads, and no other run's. */
  lemma {:induction false} ServingArchiveIsRunOutput(runId: string)
    ensures OutPath(S.DstModelName, runId) == S.ArchiveName <==> runId == S.MetaflowRunId
  {
    var prefix := S.DstModelName + "_";
    if OutPath(S.DstModelName, runId) == S.ArchiveName {
      var a, b := prefix + runId + ".tar", prefix + S.MetaflowRunId + ".tar";
      assert |runId| == |S.MetaflowRunId|;
      assert a[|prefix|..|prefix| + |runId|] == runId;
      assert b[|prefix|..|prefix| + |runId|] == S.MetaflowRunId;
    }
  }
}
