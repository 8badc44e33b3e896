/**
 * The Triton Python backend that serves the fine-tuned model: the prompt template, the names of
 * the checkpoint it loads, and `execute`, which turns each request's rows into prompts and answers
 * every request with one tensor of generated texts.
 */
module ServingModel {
  import opened Wrappers

  const MetaflowRunId := "210840"
  const DstModelName := "llama-2-7b-dolly15k"
  /** `"%s_%s.tar" % (DST_MODEL_NAME, METAFLOW_RUN_ID)`: the archive `initialize` opens. */
  const ArchiveName := DstModelName + "_" + MetaflowRunId + ".tar"
  const CheckpointModelPath := DstModelName + "/model"
  const CheckpointTokenizerPath := DstModelName + "/tokenizer"
  const Task := "text-generation"
  const MaxLength: nat := 200
  /** `str([])`: how the empty context list renders inside the template. */
  const EmptyContext := "[]"

  /** The fixed text of the template, around its three slots. */
  const InstructionHead := "### INSTRUCTION: "
  const ContextHead := "\n\n    ### CONTEXT: "
  /** The line of 28 spaces between the context and the response lines, with the indentation after it. */
  const Spacer := "\n                            \n    "
  const ResponseHead := "### RESPONSE: "
  const PromptTail := "\n    "

  /**
   * `format_prompt`: the instruction, context and response sections, in that order. Each slot can
   * be read back at its offset, right after its header.
   */
  function FormatPrompt(instruction: string, context: string, response: string): (p: string)
    ensures var i, c := |InstructionHead|, |InstructionHead| + |instruction| + |ContextHead|;
      var r := c + |context| + |Spacer| + |ResponseHead|;
      && |p| == r + |response| + |PromptTail|
      && p[..i] == InstructionHead && p[i..i + |instruction|] == instruction
      && p[c - |ContextHead|..c] == ContextHead && p[c..c + |context|] == context
      && p[r - |ResponseHead|..r] == ResponseHead && p[r..r + |response|] == response
      && p[r + |response|..] == PromptTail
  {
    InstructionHead + instruction + ContextHead + context + Spacer + ResponseHead + response + PromptTail
  }

  /**
   * `get_prompt`: the template with an empty response, so that the prompt starts with the
   * instruction and ends with the response marker followed only by a newline and indentation.
   */
  function GetPrompt(userInput: string, context: string): (p: string)
    ensures |p| >= |InstructionHead| + |userInput| + |"### RESPONSE: \n    "|
    ensures p[..|InstructionHead| + |userInput|] == InstructionHead + userInput
    ensures p[|p| - |"### RESPONSE: \n    "|..] == "### RESPONSE: \n    "
  {
    var p := FormatPrompt(userInput, context, "");
    var i, n := |InstructionHead|, |p|;
    assert p[..i + |userInput|] == p[..i] + p[i..i + |userInput|];
    assert p[n - |PromptTail| - |ResponseHead|..] == p[n - |PromptTail| - |ResponseHead|..n - |PromptTail|] + p[n - |PromptTail|..];
    p
  }

  /** A 2-D array of byte strings, row by row (`as_numpy()` of a Triton tensor). */
  type Tensor = seq<seq<string>>

  /**
   * The prompts `execute` builds for one request: one per row, from the row's first element and
   * the empty context. A row without elements raises `IndexError`.
   */
  function RequestPrompts(rows: Tensor): (r: Result<seq<string>>)
    ensures r.Ok? <==> forall i :: 0 <= i < |rows| ==> rows[i] != []
    ensures r.Err? ==> r.error == IndexError
    ensures r.Ok? ==> |r.value| == |rows| && forall i :: 0 <= i < |rows| ==> r.value[i] == GetPrompt(rows[i][0], EmptyContext)
  {
    if rows == [] then Ok([])
    else if rows[0] == [] then Err(IndexError)
    else
      var rest := RequestPrompts(rows[1..]);
      assert forall i :: 1 <= i < |rows| ==> rows[1..][i - 1] == rows[i];
      if rest.Err? then rest
      else Ok([GetPrompt(rows[0][0], EmptyContext)] + rest.value)
  }

  /**
   * The answer to one request: its prompts are generated with the loaded model (`Err` when
   * `initialize` has not loaded one), and the texts come back as a single row.
   */
  function Respond(rows: Tensor, loaded: bool, maxLength: nat, generate: (seq<string>, nat) -> seq<string>): (r: Result<Tensor>)
    ensures r.Ok? <==> loaded && RequestPrompts(rows).Ok?
    ensures r.Ok? ==> r.value == [generate(RequestPrompts(rows).value, maxLength)]
  {
    var prompts :- RequestPrompts(rows);
    if !loaded then Err(AttributeError) else Ok([generate(prompts, maxLength)])
  }

  class TritonPythonModel {
    /** Where the tokenizer and the model were loaded from; `None` before `initialize`. */
    var tokenizer: Option<string>
    var model: Option<string>
    var task: string
    var maxLength: nat

    constructor ()
      ensures tokenizer.None? && model.None?
    {
      tokenizer := None;
      model := None;
      task := "";
      maxLength := 0;
    }

    /**
     * `initialize`: open the checkpoint archive from the working directory (`files`), then load
     * the tokenizer and the model from its two sub-directories.
     */
    method Initialize(files: set<string>) returns (outcome: Outcome)
      modifies this
      ensures ArchiveName !in files ==> outcome == Fail(FileNotFound) && unchanged(this)
      ensures ArchiveName in files ==>
        && outcome == Pass
        && tokenizer == Some(CheckpointTokenizerPath) && model == Some(CheckpointModelPath)
        && task == Task && maxLength == MaxLength
    {
      if ArchiveName !in files {
        return Fail(FileNotFound);
      }
      tokenizer := Some(CheckpointTokenizerPath);
      model := Some(CheckpointModelPath);
      task := Task;
      maxLength := MaxLength;
      outcome := Pass;
    }

    /**
     * `execute`: one response per request, in request order, each the generated texts of the
     * request's prompts; the first request that raises ends the call with its exception.
     * `generate` stands for tokenizing, `model.generate` and `batch_decode` together.
     */
    method Execute(requests: seq<Tensor>, generate: (seq<string>, nat) -> seq<string>) returns (responses: Result<seq<Tensor>>)
      ensures responses.Ok? ==>
        && |responses.value| == |requests|
        && forall k :: 0 <= k < |requests| ==>
             Respond(requests[k], tokenizer.Some?, maxLength, generate) == Ok(responses.value[k])
      ensures responses.Err? ==> exists k ::
        && 0 <= k < |requests|
        && Respond(requests[k], tokenizer.Some?, maxLength, generate) == Err(responses.error)
        && forall j :: 0 <= j < k ==> Respond(requests[j], tokenizer.Some?, maxLength, generate).Ok?
    {
      var out: seq<Tensor> := [];
      var k := 0;
      while k < |requests|
        invariant 0 <= k <= |requests| && |out| == k
        invariant forall j :: 0 <= j < k ==> Respond(requests[j], tokenizer.Some?, maxLength, generate) == Ok(out[j])
      {
        var prompts := RequestPrompts(requests[k]);
        if prompts.Err? {
          return Err(prompts.error);
        }
        if tokenizer.None? {
          return Err(AttributeError);
        }
        var generated := generate(prompts.value, maxLength);
        out := out + [[generated]];
        k := k + 1;
      }
      responses := Ok(out);
    }
  }
}
