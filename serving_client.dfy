/**
 * The client side of the served model: it reads the `generated_text` tensor and cuts the model's
 * answer out of each generated text, which starts with the prompt the server built.
 */
module ServingClient {
  import opened Wrappers
  import opened Text
  import M = ServingModel

  const ResponseMarker := "### RESPONSE:"
  const SectionMarker := "###"
  /** The end-of-instruction tag of the Llama 2 chat format. */
  const InstMarker := "[/INST]"

  /**
   * `text.split("### RESPONSE:")[1].split("###")[0].strip()`: the text after the first response
   * marker and before the next `###`, without surrounding whitespace.
   */
  function ExtractResponse(text: string): (r: Result<string>)
    ensures r.Err? <==> !Contains(text, ResponseMarker)
    ensures r.Err? ==> r.error == IndexError
    ensures r.Ok? ==> r.value == Strip(FirstPiece(FirstPiece(AfterFirst(text, ResponseMarker), ResponseMarker), SectionMarker))
    ensures r.Ok? ==> !Contains(r.value, SectionMarker)
    ensures r.Ok? ==> r.value == [] || (!IsSpace(r.value[0]) && !IsSpace(r.value[|r.value| - 1]))
  {
    var pieces := Split(text, ResponseMarker);
    SplitHasSecondPiece(text, ResponseMarker);
    if |pieces| < 2 then Err(IndexError)
    else
      var section := Split(pieces[1], SectionMarker)[0];
      SplitPieces(text, ResponseMarker);
      SplitPieces(pieces[1], SectionMarker);
      StripFree(section, SectionMarker);
      Ok(Strip(section))
  }

  /**
   * `text.split("[/INST]")[1].strip()`: the text between the first and the second end-of-instruction
   * tag, without surrounding whitespace.
   */
  function ExtractInstResponse(text: string): (r: Result<string>)
    ensures r.Err? <==> !Contains(text, InstMarker)
    ensures r.Err? ==> r.error == IndexError
    ensures r.Ok? ==> r.value == Strip(FirstPiece(AfterFirst(text, InstMarker), InstMarker))
    ensures r.Ok? ==> !Contains(r.value, InstMarker)
    ensures r.Ok? ==> r.value == [] || (!IsSpace(r.value[0]) && !IsSpace(r.value[|r.value| - 1]))
  {
    var pieces := Split(text, InstMarker);
    SplitHasSecondPiece(text, InstMarker);
    if |pieces| < 2 then Err(IndexError)
    else
      SplitPieces(text, InstMarker);
      StripFree(pieces[1], InstMarker);
      Ok(Strip(pieces[1]))
  }

  /** `as_numpy("generated_text")[0][0]`: the first text of the first row. */
  function FirstText(generated: M.Tensor): (r: Result<string>)
    ensures r.Ok? <==> generated != [] && generated[0] != []
    ensures r.Ok? ==> r.value == generated[0][0]
  {
    if generated == [] || generated[0] == [] then Err(IndexError) else Ok(generated[0][0])
  }

  /** `chat_iter`: the answer cut out of the first generated text. */
  function ChatIter(generated: M.Tensor): (r: Result<string>)
    ensures r.Ok? <==> FirstText(generated).Ok? && Contains(generated[0][0], ResponseMarker)
    ensures r.Ok? ==> r == ExtractResponse(generated[0][0])
  {
    var text :- FirstText(generated);
    ExtractResponse(text)
  }

  /**
   * The `llm_response` that `time_single_request` cuts out of the first generated text after the
   * Llama 2 chat tag. The function only binds it: it prints the elapsed time and returns `None`.
   */
  function TimeSingleRequest(generated: M.Tensor): (r: Result<string>)
    ensures r.Ok? <==> FirstText(generated).Ok? && Contains(generated[0][0], InstMarker)
    ensures r.Ok? ==> r == ExtractInstResponse(generated[0][0])
  {
    var text :- FirstText(generated);
    ExtractInstResponse(text)
  }

  /** A 2-D array of `rows` rows and `cols` columns, as numpy holds it. */
  predicate IsMatrix(t: M.Tensor, cols: nat) {
    forall i :: 0 <= i < |t| ==> |t[i]| == cols
  }

  /** `.T` of a `|t|` by `cols` array. */
  function Transpose(t: M.Tensor, cols: nat): (u: M.Tensor)
    requires IsMatrix(t, cols)
    ensures |u| == cols && IsMatrix(u, |t|)
    ensures forall j, i :: 0 <= j < cols && 0 <= i < |t| ==> u[j][i] == t[i][j]
  {
    seq(cols, j requires 0 <= j < cols => seq(|t|, i requires 0 <= i < |t| => t[i][j]))
  }

  /**
   * `[r[0]...split...strip() for r in columns]`: the answer cut out of each column's first text by
   * `extract` (the client passes `ExtractResponse`), in order; an empty column or a text `extract`
   * rejects raises `IndexError`.
   */
  function ExtractColumns(columns: M.Tensor, extract: string -> Result<string>): (r: Result<seq<string>>)
    requires forall t :: extract(t).Err? ==> extract(t).error == IndexError
    ensures r.Ok? <==> forall j :: 0 <= j < |columns| ==> columns[j] != [] && extract(columns[j][0]).Ok?
    ensures r.Ok? ==> |r.value| == |columns|
    ensures r.Ok? ==> forall j :: 0 <= j < |columns| ==> Ok(r.value[j]) == extract(columns[j][0])
    ensures r.Err? ==> r.error == IndexError
  {
    if columns == [] then Ok([])
    else if columns[0] == [] then Err(IndexError)
    else
      var head := extract(columns[0][0]);
      var rest := ExtractColumns(columns[1..], extract);
      assert forall j :: 1 <= j < |columns| ==> columns[1..][j - 1] == columns[j];
      if head.Err? then Err(head.error)
      else if rest.Err? then rest
      else Ok([head.value] + rest.value)
  }

  /**
   * `batch_inference`: one answer per column of the transposed `generated_text`, from the column's
   * first element, i.e. one per text of the array's first row.
   */
  function BatchInference(generated: M.Tensor, cols: nat): (r: Result<seq<string>>)
    requires IsMatrix(generated, cols)
    ensures r.Ok? ==> |r.value| == cols
    ensures r.Ok? <==> cols == 0 || (generated != [] && forall j :: 0 <= j < cols ==> Contains(generated[0][j], ResponseMarker))
    ensures r.Ok? && cols > 0 ==> forall j :: 0 <= j < cols ==> Ok(r.value[j]) == ExtractResponse(generated[0][j])
  {
    var columns := Transpose(generated, cols);
    assert forall j :: 0 <= j < cols && generated != [] ==> columns[j][0] == generated[0][j];
    ExtractColumns(columns, ExtractResponse)
  }

  /** The `(prompt, answer)` pairs `batch_inference` prints: `zip` stops at the shorter list. */
  function PrintedPairs(userPrompts: M.Tensor, answers: seq<string>): (r: Result<seq<(string, string)>>)
    ensures r.Ok? <==> forall j :: 0 <= j < |userPrompts| && j < |answers| ==> userPrompts[j] != []
    ensures r.Ok? ==> |r.value| == if |userPrompts| <= |answers| then |userPrompts| else |answers|
    ensures r.Ok? ==> forall j :: 0 <= j < |r.value| ==> r.value[j] == (userPrompts[j][0], answers[j])
  {
    if userPrompts == [] || answers == [] then Ok([])
    else if userPrompts[0] == [] then Err(IndexError)
    else
      var rest := PrintedPairs(userPrompts[1..], answers[1..]);
      if rest.Err? then rest
      else Ok([(userPrompts[0][0], answers[0])] + rest.value)
  }

  /** The part of the template before its response marker. */
  function TemplateHead(instruction: string, context: string): string {
    M.InstructionHead + instruction + M.ContextHead + context + M.Spacer
  }

  /** The template, cut at its response marker. */
  lemma FormatPromptAtMarker(instruction: string, context: string, response: string)
    ensures M.FormatPrompt(instruction, context, response)
         == TemplateHead(instruction, context) + ResponseMarker + (" " + response + M.PromptTail)
  {
    assert M.ResponseHead == ResponseMarker + " ";
  }

  /**
   * The text before the response marker of a prompt whose instruction and context do not contain
   * the marker holds no occurrence of it, not even one running into the marker itself.
   */
  lemma PromptHeadFree(instruction: string, context: string, rest: string)
    requires !Contains(instruction, ResponseMarker) && !Contains(context, ResponseMarker)
    ensures var head := TemplateHead(instruction, context);
      forall k: nat :: k < |head| ==> !OccursAt(head + ResponseMarker + rest, ResponseMarker, k)
  {
    var x1 := M.InstructionHead + instruction;
    InstructionLineFree(instruction);
    var x3 := x1 + M.ContextHead + context;
    ContextLineFree(x1, context);
    var head := x3 + M.Spacer;
    SpacerFree(x3);
    NoEarlyOccurrence(head, ResponseMarker, rest, |x3|);
  }

  lemma InstructionLineFree(instruction: string)
    requires !Contains(instruction, ResponseMarker)
    ensures !Contains(M.InstructionHead + instruction, ResponseMarker)
  {
    LiteralFree(M.InstructionHead, ResponseMarker, 4);
    SeamFree(M.InstructionHead, instruction, ResponseMarker, 4);
  }

  lemma ContextLineFree(x: string, context: string)
    requires !Contains(x, ResponseMarker) && !Contains(context, ResponseMarker)
    ensures !Contains(x + M.ContextHead + context, ResponseMarker)
  {
    LiteralFree(M.ContextHead, ResponseMarker, 10);
    LiteralBetween(x, M.ContextHead, context, ResponseMarker, 10);
  }

  lemma SpacerFree(x: string)
    requires !Contains(x, ResponseMarker)
    ensures !Contains(x + M.Spacer, ResponseMarker)
    ensures |M.Spacer| >= |ResponseMarker| && (x + M.Spacer)[|x|..] == M.Spacer && ResponseMarker[0] !in M.Spacer
  {
    FirstCharAbsent(M.Spacer, ResponseMarker);
    NoneAcrossSeam(x, M.Spacer, ResponseMarker);
  }

  /** The template splits at its own response marker into the head and everything after it. */
  lemma SplitAtTemplateMarker(instruction: string, context: string, rest: string)
    requires !Contains(instruction, ResponseMarker) && !Contains(context, ResponseMarker)
    ensures var head := TemplateHead(instruction, context);
      Split(head + ResponseMarker + rest, ResponseMarker) == [head] + Split(rest, ResponseMarker)
  {
    var head := TemplateHead(instruction, context);
    PromptHeadFree(instruction, context, rest);
    SplitAtFirst(head, ResponseMarker, rest);
  }

  /** When `rest` holds no `###`, the client's extraction of `head + marker + rest` is `rest` stripped. */
  lemma ExtractAfterTemplateMarker(instruction: string, context: string, rest: string)
    requires !Contains(instruction, ResponseMarker) && !Contains(context, ResponseMarker)
    requires !Contains(rest, SectionMarker)
    ensures var head := TemplateHead(instruction, context);
      ExtractResponse(head + ResponseMarker + rest) == Ok(Strip(rest))
  {
    var head := TemplateHead(instruction, context);
    SplitAtTemplateMarker(instruction, context, rest);
    PrefixFree(rest, ResponseMarker, SectionMarker);
    SplitHasSecondPiece(rest, ResponseMarker);
    SplitHasSecondPiece(rest, SectionMarker);
  }

  /** The whitespace around the response slot of the template. */
  lemma TemplateWhitespace()
    ensures AllSpace(" ") && AllSpace(M.PromptTail) && AllSpace(" " + M.PromptTail)
  {
    assert " " + M.PromptTail == " \n    ";
  }

  /**
   * The client's extraction inverts the template: applied to `format_prompt(i, c, r)` it gives
   * `r` stripped, when `r` holds no `###` and `i`, `c` hold no response marker.
   */
  lemma {:induction false} ExtractFormattedResponse(instruction: string, context: string, response: string)
    requires !Contains(instruction, ResponseMarker) && !Contains(context, ResponseMarker)
    requires !Contains(response, SectionMarker)
    ensures ExtractResponse(M.FormatPrompt(instruction, context, response)) == Ok(Strip(response))
  {
    var rest := " " + response + M.PromptTail;
    FormatPromptAtMarker(instruction, context, response);
    assert !Contains(rest, SectionMarker) by {
      NoSharedChar(" ", SectionMarker);
      NoneAcrossSeamLeft(" ", response, SectionMarker);
      NoSharedChar(M.PromptTail, SectionMarker);
      NoneAcrossSeam(" " + response, M.PromptTail, SectionMarker);
    }
    ExtractAfterTemplateMarker(instruction, context, rest);
    TemplateWhitespace();
    StripPadded(" ", response, M.PromptTail);
  }

  /**
   * End to end: when the model's text is the prompt `get_prompt` built followed by a continuation
   * without `###`, the client's answer is that continuation stripped.
   */
  lemma {:induction false} ExtractGeneratedContinuation(userInput: string, continuation: string)
    requires !Contains(userInput, ResponseMarker)
    requires !Contains(continuation, SectionMarker)
    ensures ExtractResponse(M.GetPrompt(userInput, M.EmptyContext) + continuation) == Ok(Strip(continuation))
  {
    var rest := " " + M.PromptTail + continuation;
    GeneratedTextAtMarker(userInput, continuation);
    ShortFree(M.EmptyContext, ResponseMarker);
    ContinuationRestFree(continuation);
    ExtractAfterTemplateMarker(userInput, M.EmptyContext, rest);
    ContinuationRestStrip(continuation);
  }

  /** A served prompt followed by a continuation, cut at the template's response marker. */
  lemma GeneratedTextAtMarker(userInput: string, continuation: string)
    ensures M.GetPrompt(userInput, M.EmptyContext) + continuation
         == TemplateHead(userInput, M.EmptyContext) + ResponseMarker + (" " + M.PromptTail + continuation)
  {
    var head, pad := TemplateHead(userInput, M.EmptyContext) + ResponseMarker, " " + M.PromptTail;
    FormatPromptAtMarker(userInput, M.EmptyContext, "");
    assert " " + "" + M.PromptTail == pad;
    assert M.GetPrompt(userInput, M.EmptyContext) == head + pad;
    assert (head + pad) + continuation == head + (pad + continuation);
  }

  /** The padding between the response marker and the continuation adds no `###`. */
  lemma ContinuationRestFree(continuation: string)
    requires !Contains(continuation, SectionMarker)
    ensures !Contains(" " + M.PromptTail + continuation, SectionMarker)
  {
    var lead := " " + M.PromptTail;
    NoSharedChar(lead, SectionMarker);
    NoneAcrossSeamLeft(lead, continuation, SectionMarker);
  }

  /** The padding between the response marker and the continuation is stripped away. */
  lemma ContinuationRestStrip(continuation: string)
    ensures Strip(" " + M.PromptTail + continuation) == Strip(continuation)
  {
    var lead := " " + M.PromptTail;
    assert lead + continuation + "" == lead + continuation;
    TemplateWhitespace();
    StripPadded(lead, continuation, "");
  }

  /**
   * The chat round trip through the server: a single-prompt request `[[u]]`, answered by a model
   * that continues each prompt, comes back to `chat_iter` as the continuation stripped.
   */
  lemma ChatRoundTrip(userInput: string, continuation: string, maxLength: nat,
                      generate: (seq<string>, nat) -> seq<string>)
    requires !Contains(userInput, ResponseMarker)
    requires !Contains(continuation, SectionMarker)
    requires generate([M.GetPrompt(userInput, M.EmptyContext)], maxLength) == [M.GetPrompt(userInput, M.EmptyContext) + continuation]
    ensures var served := M.Respond([[userInput]], true, maxLength, generate);
      served.Ok? && ChatIter(served.value) == Ok(Strip(continuation))
  {
    var prompts := M.RequestPrompts([[userInput]]);
    assert prompts.Ok? && prompts.value == [M.GetPrompt(userInput, M.EmptyContext)];
    ExtractGeneratedContinuation(userInput, continuation);
  }

  /**
   * The served template never holds the Llama 2 end-of-instruction tag, so the extraction
   * `time_single_request` applies raises on the version-1 backend's text whenever neither the
   * user input nor the continuation holds it.
   */
  lemma {:induction false} InstTagAbsentFromTemplate(userInput: string, continuation: string)
    requires !Contains(userInput, InstMarker) && !Contains(continuation, InstMarker)
    ensures ExtractInstResponse(M.GetPrompt(userInput, M.EmptyContext) + continuation) == Err(IndexError)
  {
    var x3 := M.InstructionHead + userInput + M.ContextHead + M.EmptyContext;
    var tail := M.Spacer + M.ResponseHead + M.PromptTail;
    InstHeadFree(userInput);
    InstTailFree();
    NoneAcrossSeam(x3, tail, InstMarker);
    var prompt := x3 + tail;
    assert prompt == M.GetPrompt(userInput, M.EmptyContext);
    NoneAcrossSeamLeft(prompt, continuation, InstMarker);
  }

  /** The instruction and context lines of a served prompt hold no `[/INST]`. */
  lemma InstHeadFree(userInput: string)
    requires !Contains(userInput, InstMarker)
    ensures !Contains(M.InstructionHead + userInput + M.ContextHead + M.EmptyContext, InstMarker)
  {
    var x1 := M.InstructionHead + userInput;
    InstInstructionFree(userInput);
    InstContextHeadFree();
    ShortFree(M.EmptyContext, InstMarker);
    LiteralBetween(x1, M.ContextHead, M.EmptyContext, InstMarker, 0);
  }

  lemma InstInstructionFree(userInput: string)
    requires !Contains(userInput, InstMarker)
    ensures !Contains(M.InstructionHead + userInput, InstMarker)
  {
    LiteralFree(M.InstructionHead, InstMarker, 0);
    SeamFree(M.InstructionHead, userInput, InstMarker, 0);
  }

  lemma InstContextHeadFree()
    ensures !Contains(M.ContextHead, InstMarker) && M.ContextHead[0] !in InstMarker
    ensures 0 < |M.ContextHead| && 0 < |InstMarker| && InstMarker[0] !in M.ContextHead[1..]
  {
    LiteralFree(M.ContextHead, InstMarker, 0);
  }

  /** The empty response section of a served prompt holds no `[/INST]` and starts with a newline. */
  lemma InstTailFree()
    ensures var tail := M.Spacer + M.ResponseHead + M.PromptTail;
      !Contains(tail, InstMarker) && tail != [] && tail[0] !in InstMarker
  {
    FirstCharAbsent(M.Spacer, InstMarker);
    FirstCharAbsent(M.ResponseHead, InstMarker);
    FirstCharAbsent(M.PromptTail, InstMarker);
    NoneAcrossSeam(M.Spacer, M.ResponseHead, InstMarker);
    NoneAcrossSeam(M.Spacer + M.ResponseHead, M.PromptTail, InstMarker);
  }

  /**
   * The answer is cut at the next response marker before it is cut at `###`: in
   * `### RESPONSE:x#### RESPONSE:` the `###` that overlaps the second marker survives the first
   * split, so the answer is `x#`, not the `x` that cutting the text after the marker at its first
   * `###` would give.
   */
  lemma SecondMarkerCutsFirst()
    ensures var text := ResponseMarker + ("x#" + ResponseMarker);
      && ExtractResponse(text) == Ok("x#")
      && FirstPiece(AfterFirst(text, ResponseMarker), SectionMarker) == "x"
  {
    var tail := "x#" + ResponseMarker;
    AnswerOfOverlappingTail(tail);
    AfterLeadingMarker(tail);
    FirstSectionOfOverlappingTail();
  }

  lemma AnswerOfOverlappingTail(tail: string)
    requires tail == "x#" + ResponseMarker
    ensures ExtractResponse(ResponseMarker + tail) == Ok("x#")
  {
    SplitAfterLeadingMarker(tail);
    SplitOfOverlappingTail();
    ShortFree("x#", SectionMarker);
    SplitHasSecondPiece("x#", SectionMarker);
    assert Strip("x#") == "x#" by {
      assert !IsSpace('x') && !IsSpace('#');
    }
  }

  /** Cutting `x#### RESPONSE:` at its first `###` leaves `x`. */
  lemma FirstSectionOfOverlappingTail()
    ensures FirstPiece("x#" + ResponseMarker, SectionMarker) == "x"
  {
    var tail := "x#" + ResponseMarker;
    assert OccursAt(tail, SectionMarker, 1) by { assert tail[1..4] == "###"; }
    assert !OccursAt(tail, SectionMarker, 0) by { assert tail[0] == 'x'; }
  }

  /** A text that starts with the response marker splits into an empty piece and the split of the rest. */
  lemma SplitAfterLeadingMarker(tail: string)
    ensures Split(ResponseMarker + tail, ResponseMarker) == [[]] + Split(tail, ResponseMarker)
  {
    assert ResponseMarker + tail == [] + ResponseMarker + tail;
    SplitAtFirst([], ResponseMarker, tail);
  }

  /** What follows the leading response marker of a text is the rest of the text. */
  lemma AfterLeadingMarker(tail: string)
    ensures Contains(ResponseMarker + tail, ResponseMarker)
    ensures AfterFirst(ResponseMarker + tail, ResponseMarker) == tail
  {
    assert OccursAt(ResponseMarker + tail, ResponseMarker, 0);
  }

  /** `"x#### RESPONSE:".split("### RESPONSE:")` is `["x#", ""]`. */
  lemma SplitOfOverlappingTail()
    ensures Split("x#" + ResponseMarker, ResponseMarker)[0] == "x#"
  {
    var tail := "x#" + ResponseMarker;
    assert !OccursAt(tail, ResponseMarker, 0) by { assert tail[0] == 'x'; }
    assert !OccursAt(tail, ResponseMarker, 1) by {
      assert tail[4] == '#' && ResponseMarker[3] == ' ';
      assert tail[1..1 + |ResponseMarker|][3] == tail[4];
    }
    assert tail == "x#" + ResponseMarker + [];
    SplitAtFirst("x#", ResponseMarker, []);
  }

  /**
   * `time_single_request` on Llama 2 chat output `a [/INST] b`: when `a` holds no tag, the answer
   * is `b` up to any further tag, stripped. The tag's `[` does not recur in it, so no occurrence
   * can straddle the end of `a`.
   */
  lemma {:induction false} InstAnswerAfterTag(a: string, b: string)
    requires !Contains(a, InstMarker)
    ensures TimeSingleRequest([[a + InstMarker + b]]) == Ok(Strip(FirstPiece(b, InstMarker)))
  {
    var text := a + InstMarker + b;
    NoEarlyOccurrenceOfUniqueHead(a, InstMarker, b);
    SplitAtFirst(a, InstMarker, b);
    SplitPieces(b, InstMarker);
    assert Contains(text, InstMarker) by { assert OccursAt(text, InstMarker, |a|); }
    SplitHasSecondPiece(text, InstMarker);
  }
}
