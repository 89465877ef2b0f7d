/**
 * `handle_message` (bot.py, lines 106-114): strip the incoming text, ask, normalize,
 * reply. The Telegram side (receiving the update, `reply_text`) is not modelled; the
 * reply is the returned string.
 */
module Dispatcher {
  import opened Wrappers
  import opened Subsequences
  import opened PyStrings
  import opened Sanitizer
  import opened AnswerGenerator

  /** The text `handle_message` sends back for a message, as written. */
  function HandleMessage(cvText: string, messageText: string, complete: Request -> Option<string>): (reply: string)
    ensures IsTrimmed(reply)
    ensures NoDoubleUnderscore(reply)
  {
    Normalize(AskCv(cvText, Strip(messageText), complete))
  }

  /** The question the request carries is the message text with surrounding whitespace removed. */
  lemma HandleMessageAsksStrippedQuestion(cvText: string, messageText: string)
    ensures SplitPrompt(BuildRequest(cvText, Strip(messageText)).messages[1].content, |cvText|)
         == Some((cvText, Strip(messageText)))
    ensures IsTrimmed(Strip(messageText)) && IsSubsequence(Strip(messageText), messageText)
  {
    RequestCarriesQuestion(cvText, Strip(messageText));
    StripIsSubsequence(messageText);
  }

  /** Whitespace around a message does not change the reply. */
  lemma HandleMessageIgnoresPadding(cvText: string, pre: string, messageText: string, post: string,
                                    complete: Request -> Option<string>)
    requires AllSpace(pre) && AllSpace(post)
    ensures HandleMessage(cvText, pre + messageText + post, complete) == HandleMessage(cvText, messageText, complete)
  {
    StripIgnoresPadding(pre, messageText, post);
  }

  /** The reply depends on the completion API only through its answer to the one request built. */
  lemma HandleMessageAsksOnce(cvText: string, messageText: string, complete1: Request -> Option<string>,
                              complete2: Request -> Option<string>)
    requires complete1(BuildRequest(cvText, Strip(messageText))) == complete2(BuildRequest(cvText, Strip(messageText)))
    ensures HandleMessage(cvText, messageText, complete1) == HandleMessage(cvText, messageText, complete2)
  {
  }

  /** The fallback text passes `normalize_telegram_text` unchanged. */
  lemma FallbackIsClean()
    ensures Normalize(Fallback) == Fallback
  {
    assert forall i :: 0 <= i < |Fallback| ==> Fallback[i] != '*' && Fallback[i] != '_';
    assert forall j :: !StarPairAt(Fallback, j);
    NormalizeClean(Fallback);
  }

  /**
   * The fallback guards `ask_cv`'s result but normalization runs after it: a model reply
   * made only of underscores survives `ask_cv` and is then deleted, so the reply is empty.
   */
  lemma HandleMessageCanBeEmpty(cvText: string, messageText: string)
    ensures HandleMessage(cvText, messageText, _ => Some("____")) == []
  {
    var u := "____";
    assert u == Underscores(4);
    NotOccursWithoutFirst(u, StartMarker);
    NotOccursWithoutFirst(u, EndMarker);
    FinishAnswerPassThrough(u);
    assert forall j :: !StarPairAt(u, j);
    UnwrapBoldNoPairs(u);
    UnderscoresDropped(4);
  }

  /** `handle_message` with the empty-result check made after normalization. */
  function HandleMessageChecked(cvText: string, messageText: string, complete: Request -> Option<string>): (reply: string)
    ensures reply != []
    ensures IsTrimmed(reply)
    ensures NoDoubleUnderscore(reply)
    ensures HandleMessage(cvText, messageText, complete) != [] ==> reply == HandleMessage(cvText, messageText, complete)
  {
    var normalized := Normalize(AskCv(cvText, Strip(messageText), complete));
    if normalized == [] then FallbackIsClean(); Fallback else normalized
  }
}
