/**
 * The older single-screen tutor page: one chat that holds both the text
 * exchanges and the image analyses. Picking an image first appends a user
 * notice naming the file, so the later chat is told that an image was sent.
 */
module SuolingoPage {
  import opened Text
  import opened Types
  import opened Constants
  import opened EnglishClassifier
  import opened GeminiService
  import opened Conversation

  class Suolingo {
    var chatHistory: seq<Message>
    var isLoading: bool
    var error: Option<string>

    /** The history starts with the welcome message and every payload matches its message type. */
    ghost predicate Valid()
      reads this
    {
      chatHistory != [] && IsWelcome(chatHistory[0]) && AllWellTyped(chatHistory)
    }

    /** The page as it mounts at clock reading `now`. */
    constructor(now: nat)
      ensures Valid()
      ensures !isLoading && error == None
      ensures chatHistory == [Message(WelcomeId, Soulingo, now, Text, TextContent(Introduction))]
    {
      chatHistory := [Message(WelcomeId, Soulingo, now, Text, TextContent(Introduction))];
      isLoading := false;
      error := None;
    }

    /** The upload button is disabled while a request is in flight. */
    function UploadDisabled(): bool
      reads this
    {
      isLoading
    }

    /**
     * `handleFileChange`: with no file nothing happens; otherwise the notice
     * naming the file is appended, then the analysis of the image or the error
     * that replaced it. The upload button is usable again afterwards.
     */
    method HandleFileChange(file: Option<PickedFile>, apiKey: string, reply: Reply, userAt: nat, replyAt: nat)
      returns (sent: Option<Request>)
      requires Valid()
      modifies this
      ensures Valid()
      ensures file.None? ==>
        chatHistory == old(chatHistory) && isLoading == old(isLoading) && error == old(error) && sent == None
      ensures file.Some? ==>
        var x := AnalyzePicked(apiKey, file.value, reply);
        chatHistory == old(chatHistory) + [UploadNotice(file.value.name, userAt), AnalysisTurn(x.result, replyAt)]
        && !UploadDisabled() && error == ErrorOf(x.result) && sent == x.sent
    {
      sent := None;
      if file.None? {
        return;
      }
      isLoading := true;
      error := None;
      chatHistory := chatHistory + [UploadNotice(file.value.name, userAt)];
      var x := AnalyzePicked(apiKey, file.value, reply);
      sent := x.sent;
      chatHistory := chatHistory + [AnalysisTurn(x.result, replyAt)];
      if x.result.Failure? {
        error := Some(x.result.message);
      }
      isLoading := false;
    }

    /**
     * `handleSendMessage`: text that trims to nothing (all white space, see
     * `TrimEmptyIff`) is ignored; otherwise the user's message is appended,
     * then the answer of the grammar check (for English-looking text) or of
     * the chat (which is given the history as it was before the user's
     * message, upload notices and analyses included), or the error that
     * replaced it.
     */
    method HandleSendMessage(text: string, apiKey: string, reply: Reply, userAt: nat, replyAt: nat)
      returns (sent: Option<Request>)
      requires Valid()
      modifies this
      ensures Valid()
      ensures AllWhiteSpace(text) ==>
        chatHistory == old(chatHistory) && isLoading == old(isLoading) && error == old(error) && sent == None
      ensures !AllWhiteSpace(text) ==>
        var outcome := TextOutcome(apiKey, text, reply);
        chatHistory == old(chatHistory) + [UserText(text, userAt), AnswerTurn(ReplyKind(text), outcome, replyAt)]
        && !isLoading && error == ErrorOf(outcome)
      ensures !AllWhiteSpace(text) && IsEnglishMessage(text) ==> sent == CheckGrammar(apiKey, text, reply).sent
      ensures !AllWhiteSpace(text) && !IsEnglishMessage(text) && apiKey != "" ==>
        sent == Some(ChatRequest(FlashModel, ChatInstruction, Replay(old(chatHistory)), text))
      ensures !AllWhiteSpace(text) && !IsEnglishMessage(text) && apiKey == "" ==> sent == None
    {
      sent := None;
      if AllWhiteSpace(text) {
        return;
      }
      isLoading := true;
      error := None;
      var before := chatHistory;
      chatHistory := chatHistory + [UserText(text, userAt)];
      var outcome: Result<string>;
      var kind := Text;
      if IsEnglishMessage(text) {
        var x := CheckGrammar(apiKey, text, reply);
        outcome, sent := x.result, x.sent;
        kind := GrammarCorrection;
      } else {
        var x := GeminiService.Chat(apiKey, before, text, reply);
        outcome, sent := x.result, x.sent;
      }
      assert outcome == TextOutcome(apiKey, text, reply) && kind == ReplyKind(text);
      var answer := AnswerTurn(kind, outcome, replyAt);
      assert WellTyped(answer);
      chatHistory := chatHistory + [answer];
      assert chatHistory == before + [UserText(text, userAt), answer];
      if outcome.Failure? {
        error := Some(outcome.message);
      }
      isLoading := false;
    }
  }

  /**
   * After an image exchange the chat is told about the upload as a user turn
   * naming the file; the analysis itself is never replayed, but an error
   * message that replaced it is, as a tutor turn.
   */
  lemma ImageExchangeReplay(h: seq<Message>, name: string, outcome: Result<Content>, userAt: nat, replyAt: nat)
    requires AllWellTyped(h)
    requires outcome.Success? ==> outcome.value.ImageAnalysisContent?
    ensures AllWellTyped(h + [UploadNotice(name, userAt), AnalysisTurn(outcome, replyAt)])
    ensures Replay(h + [UploadNotice(name, userAt), AnalysisTurn(outcome, replyAt)])
         == Replay(h) + [ChatTurn("user", UploadNoticePrefix + name)]
            + (if outcome.Failure? then [ChatTurn("model", OrElse(outcome.message, ImageErrorFallback))] else [])
  {
    var notice, answer := UploadNotice(name, userAt), AnalysisTurn(outcome, replyAt);
    assert WellTyped(notice) && WellTyped(answer);
    assert [notice, answer][..1] == [notice];
    ReplayOne(notice);
    assert Replay([notice, answer]) == Replay([notice]) + (if IsDialogue(answer) then [TurnOf(answer)] else []);
    ReplayAppend(h, [notice, answer]);
  }
}
