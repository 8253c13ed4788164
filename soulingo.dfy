/**
 * The tutor page with a landing screen and three modes: its state (mode,
 * history, loading flag, error), the two handlers that append to the history,
 * and the two views that show parts of it.
 */
module SoulingoPage {
  import opened Text
  import opened Types
  import opened Constants
  import opened EnglishClassifier
  import opened GeminiService
  import opened Conversation

  // ---------------------------------------------------------------------
  // Views

  /** The chat view: every message but the image analyses, in order. */
  function ChatView(h: seq<Message>): seq<Message> {
    if h == [] then []
    else ChatView(h[..|h| - 1]) + (if h[|h| - 1].kind != ImageAnalysis then [h[|h| - 1]] else [])
  }

  /** The vision view: only the image analyses, newest first. */
  function VisionView(h: seq<Message>): seq<Message> {
    if h == [] then []
    else (if h[|h| - 1].kind == ImageAnalysis then [h[|h| - 1]] else []) + VisionView(h[..|h| - 1])
  }

  /** The chat view of a history split in two is the views of the parts, in order. */
  lemma {:induction false} ChatViewAppend(a: seq<Message>, b: seq<Message>)
    ensures ChatView(a + b) == ChatView(a) + ChatView(b)
    decreases |b|
  {
    if b == [] {
      assert a + b == a;
    } else {
      ChatViewAppend(a, b[..|b| - 1]);
      assert (a + b)[..|a + b| - 1] == a + b[..|b| - 1];
    }
  }

  /** The vision view of a history split in two shows the later part first. */
  lemma {:induction false} VisionViewAppend(a: seq<Message>, b: seq<Message>)
    ensures VisionView(a + b) == VisionView(b) + VisionView(a)
    decreases |b|
  {
    if b == [] {
      assert a + b == a;
    } else {
      var last, front := b[|b| - 1], b[..|b| - 1];
      var kept := if last.kind == ImageAnalysis then [last] else [];
      assert (a + b)[|a + b| - 1] == last && (a + b)[..|a + b| - 1] == a + front;
      assert VisionView(a + b) == kept + VisionView(a + front);
      VisionViewAppend(a, front);
      assert VisionView(b) == kept + VisionView(front);
    }
  }

  /** The chat view holds exactly the messages of the history that are not image analyses. */
  lemma {:induction false} ChatViewMembers(h: seq<Message>)
    ensures forall m :: m in ChatView(h) <==> m in h && m.kind != ImageAnalysis
  {
    if h != [] {
      ChatViewMembers(h[..|h| - 1]);
      assert h == h[..|h| - 1] + [h[|h| - 1]];
    }
  }

  /** The vision view holds exactly the image analyses of the history. */
  lemma {:induction false} VisionViewMembers(h: seq<Message>)
    ensures forall m :: m in VisionView(h) <==> m in h && m.kind == ImageAnalysis
  {
    if h != [] {
      VisionViewMembers(h[..|h| - 1]);
      assert h == h[..|h| - 1] + [h[|h| - 1]];
    }
  }

  /** Every message lands in exactly one of the two views. */
  lemma {:induction false} ViewsPartition(h: seq<Message>)
    ensures |ChatView(h)| + |VisionView(h)| == |h|
  {
    if h != [] {
      ViewsPartition(h[..|h| - 1]);
    }
  }

  /** The chat service is given the same turns whether it replays the history or only the chat view. */
  lemma {:induction false} ReplayOfChatView(h: seq<Message>)
    requires AllWellTyped(h)
    ensures AllWellTyped(ChatView(h))
    ensures Replay(ChatView(h)) == Replay(h)
  {
    if h != [] {
      var h' := h[..|h| - 1];
      var m := h[|h| - 1];
      ReplayOfChatView(h');
      var tail := if m.kind != ImageAnalysis then [m] else [];
      assert WellTyped(m);
      ReplayAppend(ChatView(h'), tail);
      if m.kind != ImageAnalysis {
        ReplayOne(m);
      }
    }
  }

  // ---------------------------------------------------------------------
  // The page

  class Soulingo {
    var currentMode: AppMode
    var chatHistory: seq<Message>
    var isLoading: bool
    var error: Option<string>

    /** The history starts with the welcome message and every payload matches its message type. */
    ghost predicate Valid()
      reads this
    {
      chatHistory != [] && IsWelcome(chatHistory[0]) && AllWellTyped(chatHistory)
    }

    /** The page as it mounts at clock reading `now`. */
    constructor(now: nat)
      ensures Valid()
      ensures currentMode == Landing && !isLoading && error == None
      ensures chatHistory == [Message(WelcomeId, Soulingo, now, Text, TextContent(Introduction))]
    {
      currentMode := Landing;
      chatHistory := [Message(WelcomeId, Soulingo, now, Text, TextContent(Introduction))];
      isLoading := false;
      error := None;
    }

    /** A sidebar button, the logo or the landing page choosing a mode. */
    method SetMode(mode: AppMode)
      modifies this
      ensures currentMode == mode
      ensures chatHistory == old(chatHistory) && isLoading == old(isLoading) && error == old(error)
    {
      currentMode := mode;
    }

    /**
     * `handleSendMessage`: text that trims to nothing (all white space, see
     * `TrimEmptyIff`) is ignored; otherwise the
     * user's message is appended, then the answer of the grammar check (for
     * English-looking text) or of the chat (which is given the history as it
     * was before the user's message), or the error that replaced it.
     */
    method HandleSendMessage(text: string, apiKey: string, reply: Reply, userAt: nat, replyAt: nat)
      returns (sent: Option<Request>)
      requires Valid()
      modifies this
      ensures Valid()
      ensures currentMode == old(currentMode)
      ensures AllWhiteSpace(text) ==>
        chatHistory == old(chatHistory) && isLoading == old(isLoading) && error == old(error) && sent == None
      ensures !AllWhiteSpace(text) ==>
        var outcome := TextOutcome(apiKey, text, reply);
        chatHistory == old(chatHistory) + [UserText(text, userAt), AnswerTurn(ReplyKind(text), outcome, replyAt)]
        && !isLoading && error == ErrorOf(outcome)
      ensures !AllWhiteSpace(text) && IsEnglishMessage(text) ==> sent == CheckGrammar(apiKey, text, reply).sent
      ensures !AllWhiteSpace(text) && !IsEnglishMessage(text) && apiKey != "" ==>
        sent == Some(ChatRequest(FlashModel, ChatInstruction, Replay(old(chatHistory)), text))
      ensures !AllWhiteSpace(text) && !IsEnglishMessage(text) && apiKey == "" ==> sent == None
    {
      sent := None;
      if AllWhiteSpace(text) {
        return;
      }
      isLoading := true;
      error := None;
      var before := chatHistory;
      chatHistory := chatHistory + [UserText(text, userAt)];
      var outcome: Result<string>;
      var kind := Text;
      if IsEnglishMessage(text) {
        var x := CheckGrammar(apiKey, text, reply);
        outcome, sent := x.result, x.sent;
        kind := GrammarCorrection;
      } else {
        var x := GeminiService.Chat(apiKey, before, text, reply);
        outcome, sent := x.result, x.sent;
      }
      assert outcome == TextOutcome(apiKey, text, reply) && kind == ReplyKind(text);
      var answer := AnswerTurn(kind, outcome, replyAt);
      assert WellTyped(answer);
      chatHistory := chatHistory + [answer];
      assert chatHistory == before + [UserText(text, userAt), answer];
      if outcome.Failure? {
        error := Some(outcome.message);
      }
      isLoading := false;
    }

    /**
     * `handleFileChange`: with no file nothing happens; otherwise the page
     * switches to the vision mode and appends one tutor message, the analysis
     * of the image or the error that replaced it. No user message is added.
     */
    method HandleFileChange(file: Option<PickedFile>, apiKey: string, reply: Reply, at: nat)
      returns (sent: Option<Request>)
      requires Valid()
      modifies this
      ensures Valid()
      ensures file.None? ==>
        chatHistory == old(chatHistory) && currentMode == old(currentMode) && isLoading == old(isLoading)
        && error == old(error) && sent == None
      ensures file.Some? ==>
        var x := AnalyzePicked(apiKey, file.value, reply);
        chatHistory == old(chatHistory) + [AnalysisTurn(x.result, at)]
        && currentMode == Vision && !isLoading && error == ErrorOf(x.result) && sent == x.sent
    {
      sent := None;
      if file.None? {
        return;
      }
      isLoading := true;
      error := None;
      if currentMode != Vision {
        currentMode := Vision;
      }
      var x := AnalyzePicked(apiKey, file.value, reply);
      sent := x.sent;
      chatHistory := chatHistory + [AnalysisTurn(x.result, at)];
      if x.result.Failure? {
        error := Some(x.result.message);
      }
      isLoading := false;
    }
  }

  /**
   * A sent text message shows up at the end of the chat view, as the user's
   * message and the answer, and leaves the vision view as it was.
   */
  lemma SendShowsInChatView(h: seq<Message>, user: Message, answer: Message)
    requires user.kind != ImageAnalysis && answer.kind != ImageAnalysis
    ensures ChatView(h + [user, answer]) == ChatView(h) + [user, answer]
    ensures VisionView(h + [user, answer]) == VisionView(h)
  {
    assert [user, answer][..1] == [user];
    assert [user][..0] == [];
    assert ChatView([user]) == [user];
    assert ChatView([user, answer]) == [user, answer];
    assert VisionView([user]) == [];
    assert VisionView([user, answer]) == [];
    ChatViewAppend(h, [user, answer]);
    VisionViewAppend(h, [user, answer]);
  }

  /** A new analysis goes to the top of the vision view and leaves the chat view as it was. */
  lemma AnalysisShowsFirst(h: seq<Message>, m: Message)
    requires m.kind == ImageAnalysis
    ensures VisionView(h + [m]) == [m] + VisionView(h)
    ensures ChatView(h + [m]) == ChatView(h)
  {
    assert (h + [m])[..|h + [m]| - 1] == h;
  }

  /**
   * An exchange on the vision page followed by a text message: the chat is
   * given the welcome message and the earlier text turns, never the analysis.
   */
  lemma ReplaySkipsAnalyses(welcome: Message, analysis: Message, user: Message, answer: Message)
    requires IsWelcome(welcome) && WellTyped(analysis) && analysis.kind == ImageAnalysis
    requires WellTyped(user) && user.kind == Text && user.sender == User
    requires WellTyped(answer) && answer.kind == Text && answer.sender == Soulingo
    ensures AllWellTyped([welcome, analysis, user, answer])
    ensures Replay([welcome, analysis, user, answer])
         == [ChatTurn("model", Introduction), ChatTurn("user", user.content.text), ChatTurn("model", answer.content.text)]
  {
    var h := [welcome, analysis, user, answer];
    assert [welcome, analysis][..1] == [welcome];
    assert [welcome, analysis, user][..2] == [welcome, analysis];
    assert h[..3] == [welcome, analysis, user];
    ReplayOne(welcome);
    assert Replay([welcome, analysis]) == [ChatTurn("model", Introduction)];
    assert Replay([welcome, analysis, user]) == [ChatTurn("model", Introduction), ChatTurn("user", user.content.text)];
  }
}
