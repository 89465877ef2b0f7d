/**
 * `ask_cv`: the prompt envelope sent to the completion API and the post-processing
 * of the reply (bot.py, lines 39-94). The API call itself is the parameter `complete`.
 */
module AnswerGenerator {
  import opened Wrappers
  import opened Subsequences
  import opened PyStrings

  const ModelId := "mistralai/devstral-2512:free"
  const Temperature: real := 0.3
  const MaxTokens: nat := 600

  /** The fixed system-role instructions. */
  const SystemPrompt := "\nYou are Rinaldi Guizot's recruiter-facing AI CV assistant.\n\nRules:\n- Use ONLY the provided CV content\n- Do NOT invent information\n- If something is not in the CV, say so clearly\n\nFormatting rules:\n- Respond in PLAIN TEXT ONLY\n- Do NOT use Markdown or HTML\n- Do NOT use **, __, or any formatting symbols\n- Use emojis and capitalization to highlight sections:\n  - Section titles: emojis\n  - Bullet points: start with \U{2022} or \U{2705}\n"

  /** The user prompt up to the CV text, between the CV text and the question, and after the question. */
  const PromptHead := "\nBelow is the FULL CV content.\n\nUse ONLY this information to answer the question.\nIf the answer does not exist in the CV, say so explicitly.\n\nCV CONTENT:\n"
  const QuestionHeader := "\n\nQUESTION:\n"
  const PromptTail := "\n"

  /** The reply used when the cleaned model output is empty. */
  const Fallback := "\U{26A0}\U{FE0F} No relevant information found in the CV."

  /** The generation-boundary markers some backends emit. */
  const StartMarker := "<s>"
  const EndMarker := "</s>"

  datatype ChatMessage = ChatMessage(role: string, content: string)

  /** The arguments of the one `chat.completions.create` call. */
  datatype Request = Request(model: string, messages: seq<ChatMessage>, temperature: real, maxTokens: nat)

  // ---------------------------------------------------------------------------
  // The prompt envelope
  // ---------------------------------------------------------------------------

  /** The f-string: the whole CV text, then the question, each verbatim. */
  function UserPrompt(cvText: string, question: string): (prompt: string)
    ensures |prompt| == |PromptHead| + |cvText| + |QuestionHeader| + |question| + |PromptTail|
    ensures prompt[..|PromptHead|] == PromptHead
  {
    PromptHead + cvText + QuestionHeader + question + PromptTail
  }

  /**
   * Reads an envelope back, given the length of the CV text in it: the CV text and the
   * question, or None when prompt is not an envelope with a CV text of that length.
   */
  function SplitPrompt(prompt: string, cvLength: nat): Option<(string, string)> {
    var cvEnd := |PromptHead| + cvLength;
    var questionStart := cvEnd + |QuestionHeader|;
    if questionStart + |PromptTail| <= |prompt|
      && prompt[..|PromptHead|] == PromptHead
      && prompt[cvEnd..questionStart] == QuestionHeader
      && prompt[|prompt| - |PromptTail|..] == PromptTail
    then Some((prompt[|PromptHead|..cvEnd], prompt[questionStart..|prompt| - |PromptTail|]))
    else None
  }

  /** The envelope loses nothing: the CV text and the question can be read back out of it. */
  lemma PromptRoundTrip(cvText: string, question: string)
    ensures SplitPrompt(UserPrompt(cvText, question), |cvText|) == Some((cvText, question))
  {
    var p := UserPrompt(cvText, question);
    var cvEnd := |PromptHead| + |cvText|;
    var questionStart := cvEnd + |QuestionHeader|;
    assert p[..|PromptHead|] == PromptHead;
    assert p[|PromptHead|..cvEnd] == cvText;
    assert p[cvEnd..questionStart] == QuestionHeader;
    assert p[questionStart..|p| - |PromptTail|] == question;
    assert p[|p| - |PromptTail|..] == PromptTail;
  }

  /** Whatever SplitPrompt reads out of a prompt rebuilds exactly that prompt. */
  lemma SplitPromptSound(prompt: string, cvLength: nat, cvText: string, question: string)
    requires SplitPrompt(prompt, cvLength) == Some((cvText, question))
    ensures |cvText| == cvLength && UserPrompt(cvText, question) == prompt
  {
    var cvEnd := |PromptHead| + cvLength;
    var questionStart := cvEnd + |QuestionHeader|;
    assert prompt == prompt[..|PromptHead|] + prompt[|PromptHead|..cvEnd] + prompt[cvEnd..questionStart]
      + prompt[questionStart..|prompt| - |PromptTail|] + prompt[|prompt| - |PromptTail|..];
  }

  /** The CV text and then the question appear in the prompt in full and in this order. */
  lemma PromptEmbedsVerbatim(cvText: string, question: string)
    ensures OccursAt(UserPrompt(cvText, question), cvText, |PromptHead|)
    ensures OccursAt(UserPrompt(cvText, question), question, |PromptHead| + |cvText| + |QuestionHeader|)
    ensures |UserPrompt(cvText, question)| == |PromptHead| + |cvText| + |QuestionHeader| + |question| + |PromptTail|
  {
    PromptRoundTrip(cvText, question);
  }

  /** The request: fixed model and sampling parameters, the system prompt, then the envelope. */
  function BuildRequest(cvText: string, question: string): (r: Request)
    ensures |r.messages| == 2 && r.messages[0].role == "system" && r.messages[1].role == "user"
    ensures r.messages[1].content == UserPrompt(cvText, question)
  {
    Request(ModelId, [ChatMessage("system", SystemPrompt), ChatMessage("user", UserPrompt(cvText, question))],
            Temperature, MaxTokens)
  }

  /**
   * The request names the fixed model and sampling parameters, sends the system prompt
   * first, and then a user message carrying the CV text and the question, recoverable in full.
   */
  lemma RequestCarriesQuestion(cvText: string, question: string)
    ensures BuildRequest(cvText, question).model == "mistralai/devstral-2512:free"
    ensures BuildRequest(cvText, question).temperature == 0.3
    ensures BuildRequest(cvText, question).maxTokens == 600
    ensures |BuildRequest(cvText, question).messages| == 2
    ensures BuildRequest(cvText, question).messages[0] == ChatMessage("system", SystemPrompt)
    ensures BuildRequest(cvText, question).messages[1].role == "user"
    ensures SplitPrompt(BuildRequest(cvText, question).messages[1].content, |cvText|) == Some((cvText, question))
  {
    PromptRoundTrip(cvText, question);
  }

  // ---------------------------------------------------------------------------
  // Post-processing the reply
  // ---------------------------------------------------------------------------

  /** `content or ""`, then `.replace("<s>", "").replace("</s>", "").strip()`. */
  function CleanAnswer(content: Option<string>): (r: string)
    ensures IsTrimmed(r)
  {
    Strip(RemoveAll(RemoveAll(content.GetOr(""), StartMarker), EndMarker))
  }

  /** `answer or Fallback`: the cleaned reply, or the fallback when it is empty. */
  function FinishAnswer(content: Option<string>): (answer: string)
    ensures answer != []
    ensures IsTrimmed(answer)
  {
    var cleaned := CleanAnswer(content);
    if cleaned == [] then Fallback else cleaned
  }

  /** `ask_cv(question)`, with the completion API as the parameter complete. */
  function AskCv(cvText: string, question: string, complete: Request -> Option<string>): (answer: string)
    ensures answer != []
  {
    FinishAnswer(complete(BuildRequest(cvText, question)))
  }

  /**
   * The fallback is returned exactly when the cleaned reply is empty, or when the model
   * itself replied with the fallback text.
   */
  lemma FinishAnswerFallbackIff(content: Option<string>)
    ensures FinishAnswer(content) == Fallback <==> CleanAnswer(content) == [] || CleanAnswer(content) == Fallback
    ensures CleanAnswer(content) != [] ==> FinishAnswer(content) == CleanAnswer(content)
  {
  }

  /**
   * Marker removal deletes whole markers: the raw reply is as long as the twice-cleaned
   * text plus three characters per "<s>" and four per "</s>" removed, and strip only
   * shortens that further.
   */
  lemma {:induction false} CleanAnswerLength(content: Option<string>)
    ensures var raw := content.GetOr("");
            var once := RemoveAll(raw, StartMarker);
            var twice := RemoveAll(once, EndMarker);
            |raw| == |twice| + 3 * RemovedCopies(raw, StartMarker) + 4 * RemovedCopies(once, EndMarker)
            && |CleanAnswer(content)| <= |twice|
  {
    var raw := content.GetOr("");
    var once := RemoveAll(raw, StartMarker);
    RemoveAllLength(raw, StartMarker);
    RemoveAllLength(once, EndMarker);
  }

  /**
   * A "<s>" in the reply is deleted, and so is a "</s>" left after the first pass: either
   * makes the cleaned reply shorter than the raw one.
   */
  lemma CleanAnswerDeletesMarker(content: Option<string>, i: nat)
    ensures OccursAt(content.GetOr(""), StartMarker, i) ==> |CleanAnswer(content)| < |content.GetOr("")|
    ensures OccursAt(RemoveAll(content.GetOr(""), StartMarker), EndMarker, i) ==> |CleanAnswer(content)| < |content.GetOr("")|
    ensures (forall j :: 0 <= j <= |content.GetOr("")| ==> !OccursAt(content.GetOr(""), StartMarker, j))
            && OccursAt(content.GetOr(""), EndMarker, i)
            ==> |CleanAnswer(content)| < |content.GetOr("")|
  {
    var raw := content.GetOr("");
    var once := RemoveAll(raw, StartMarker);
    CleanAnswerLength(content);
    if OccursAt(raw, StartMarker, i) {
      RemoveAllShortens(raw, StartMarker, i);
    }
    if OccursAt(once, EndMarker, i) {
      RemoveAllShortens(once, EndMarker, i);
    }
    if forall j :: 0 <= j <= |raw| ==> !OccursAt(raw, StartMarker, j) {
      RemoveAllAbsent(raw, StartMarker);
    }
  }

  /** Missing content, empty content and whitespace-only content all give the fallback. */
  lemma FinishAnswerBlank(content: Option<string>)
    requires content.None? || AllSpace(content.value)
    ensures FinishAnswer(content) == Fallback
  {
    var raw := content.GetOr("");
    assert AllSpace(raw);
    NotOccursWithoutFirst(raw, StartMarker);
    RemoveAllAbsent(raw, StartMarker);
    NotOccursWithoutFirst(raw, EndMarker);
    RemoveAllAbsent(raw, EndMarker);
    StripEmptyIff(raw);
  }

  /** A reply that is non-empty, trimmed and free of markers reaches the user verbatim. */
  lemma FinishAnswerPassThrough(text: string)
    requires text != [] && IsTrimmed(text)
    requires forall i :: 0 <= i <= |text| ==> !OccursAt(text, StartMarker, i)
    requires forall i :: 0 <= i <= |text| ==> !OccursAt(text, EndMarker, i)
    ensures FinishAnswer(Some(text)) == text
  {
    RemoveAllAbsent(text, StartMarker);
    RemoveAllAbsent(text, EndMarker);
    StripTrimmed(text);
  }

  /** The answer is the fallback or was obtained from the model's reply by deleting characters. */
  lemma FinishAnswerFromContent(content: Option<string>)
    ensures FinishAnswer(content) == Fallback || IsSubsequence(FinishAnswer(content), content.GetOr(""))
  {
    var raw := content.GetOr("");
    var once := RemoveAll(raw, StartMarker);
    var twice := RemoveAll(once, EndMarker);
    RemoveAllIsSubsequence(raw, StartMarker);
    RemoveAllIsSubsequence(once, EndMarker);
    StripIsSubsequence(twice);
    SubsequenceTrans(Strip(twice), twice, once);
    SubsequenceTrans(Strip(twice), once, raw);
  }

  /**
   * Marker removal is a single pass: "<<s>s>" loses the inner "<s>" and the remaining
   * characters form a new one, which reaches the user.
   */
  lemma MarkerSurvives()
    ensures FinishAnswer(Some("<<s>s>")) == "<s>"
  {
    var s := "<<s>s>";
    assert s[..3][1] != StartMarker[1];
    assert RemoveAll(s, StartMarker) == "<" + RemoveAll(s[1..], StartMarker);
    assert s[1..][..3] == StartMarker;
    assert s[1..][3..] == "s>";
    assert RemoveAll(s[1..], StartMarker) == "s>";
    assert RemoveAll("<s>", EndMarker) == "<s>";
    StripTrimmed("<s>");
  }
}
