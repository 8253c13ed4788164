/**
 * The messages both tutor pages append to their history: the user's own
 * message, the tutor's answer or the error that replaced it, and the result
 * of an image analysis. Each page reads the picked file, calls the service,
 * and turns the outcome into exactly one tutor message.
 */
module Conversation {
  import opened Text
  import opened Types
  import opened Constants
  import opened EnglishClassifier
  import opened GeminiService

  const TextErrorFallback: string := "Mesajınızı işlerken bir hata oluştu."
  const ImageErrorFallback: string := "Resim analizi sırasında bir hata oluştu."
  const UploadNoticePrefix: string := "Resim yüklendi: "

  /** The message a conversation starts with. */
  predicate IsWelcome(m: Message) {
    m.id == WelcomeId && m.sender == Soulingo && m.kind == Text && m.content == TextContent(Introduction)
  }

  /** The user's message, exactly as typed. */
  function UserText(text: string, at: nat): Message {
    Message(StampedId(at, "-user-text"), User, at, Text, TextContent(text))
  }

  /** The user-side notice that an image was picked. */
  function UploadNotice(fileName: string, at: nat): Message {
    Message(StampedId(at, "-user-img"), User, at, Text, TextContent(UploadNoticePrefix + fileName))
  }

  /** The type of the answer: a grammar correction for English-looking text, plain text otherwise. */
  function ReplyKind(text: string): MessageType {
    if IsEnglishMessage(text) then GrammarCorrection else Text
  }

  /** What the answering service returns or throws: `checkGrammar` for English-looking text, `chat` otherwise. */
  function TextOutcome(apiKey: string, text: string, reply: Reply): Result<string> {
    if IsEnglishMessage(text) then CheckGrammar(apiKey, text, reply).result else ChatResult(apiKey, reply)
  }

  /** The tutor's message after a user message: the answer, or the error message (or a fallback when it is empty). */
  function AnswerTurn(kind: MessageType, outcome: Result<string>, at: nat): Message {
    match outcome
    case Success(text) => Message(StampedId(at, "-ai-text"), Soulingo, at, kind, TextContent(text))
    case Failure(e) => Message(StampedId(at, "-error"), Soulingo, at, Text, TextContent(OrElse(e, TextErrorFallback)))
  }

  /** Reading the picked image and analysing it without a prompt; a read error is thrown as it is. */
  function AnalyzePicked(apiKey: string, file: PickedFile, reply: Reply): Exchange<Content> {
    match file.contents
    case Failure(e) => Exchange(None, Failure(e))
    case Success(data) => AnalyzeImage(apiKey, ImageFile(data, file.mimeType, file.name), "", reply)
  }

  /** The tutor's message after an image: the analysis, or the error message (or a fallback when it is empty). */
  function AnalysisTurn(outcome: Result<Content>, at: nat): Message {
    match outcome
    case Success(c) => Message(StampedId(at, "-ai-img-analysis"), Soulingo, at, ImageAnalysis, c)
    case Failure(e) => Message(StampedId(at, "-error"), Soulingo, at, Text, TextContent(OrElse(e, ImageErrorFallback)))
  }

  /** The page's `error` after a call: the message of what was thrown, or none. */
  function ErrorOf<T>(outcome: Result<T>): Option<string> {
    if outcome.Failure? then Some(outcome.message) else None
  }

  /**
   * The answer to a text message is a tutor message that never reads empty;
   * it is a grammar correction exactly when the text looks English and the
   * grammar check answered, and a failure shows the error's own message.
   */
  lemma AnswerTurnShape(apiKey: string, text: string, reply: Reply, at: nat)
    ensures var outcome := TextOutcome(apiKey, text, reply);
      var m := AnswerTurn(ReplyKind(text), outcome, at);
      m.sender == Soulingo && WellTyped(m) && m.content.TextContent? && m.content.text != ""
      && (m.kind == GrammarCorrection <==> IsEnglishMessage(text) && apiKey != "" && reply.Replied?)
      && (outcome.Success? <==> apiKey != "" && reply.Replied?)
      && (apiKey == "" ==> m.content.text == MissingKeyMessage)
      && (apiKey != "" && reply.Thrown? ==>
            m.content.text == if IsEnglishMessage(text) then GrammarErrorMessage else ChatErrorMessage)
  {
  }

  /**
   * The message after an image is an analysis with at least one item exactly
   * when the file was read, the key is set and the reply holds a block;
   * otherwise it is a text message that never reads empty.
   */
  lemma AnalysisTurnShape(apiKey: string, file: PickedFile, reply: Reply, at: nat)
    ensures var x := AnalyzePicked(apiKey, file, reply);
      var m := AnalysisTurn(x.result, at);
      m.sender == Soulingo && WellTyped(m)
      && (m.kind == ImageAnalysis <==>
            file.contents.Success? && apiKey != "" && reply.Replied? && ParseVisionResponse(reply.text).Some?)
      && (m.kind == ImageAnalysis ==>
            m.content == ImageAnalysisContent(DefaultImagePrompt, ParseVisionResponse(reply.text).value)
            && |m.content.identifiedObjects| > 0)
      && (m.kind != ImageAnalysis ==> m.content.TextContent? && m.content.text != "")
      && (x.sent.Some? <==> file.contents.Success? && apiKey != "")
  {
  }
}
