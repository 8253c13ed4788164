/**
 * The three operations of the service object that talks to the remote model:
 * image analysis, grammar checking and chat. Each is modelled as one call that
 * is given the environment's API key and the remote model's reply, and that
 * yields the request it sent (if it got as far as sending one) together with
 * the value it returns or the message of the error it throws.
 */
module GeminiService {
  import opened Text
  import opened Types
  import opened Constants
  import opened VisionBlocks

  /** What the remote model does with the request: throws, or answers with a text (`""` when there is none). */
  datatype Reply = Thrown | Replied(text: string)

  /** One entry of the chat history handed to the remote model; `role` is `"user"` or `"model"`. */
  datatype ChatTurn = ChatTurn(role: string, text: string)

  /** The request as it leaves for the remote model. */
  datatype Request =
    | VisionRequest(model: string, systemInstruction: SystemInstruction, mimeType: string, data: string, prompt: string)
    | GrammarRequest(model: string, systemInstruction: SystemInstruction, contents: string)
    | ChatRequest(model: string, systemInstruction: SystemInstruction, history: seq<ChatTurn>, message: string)

  /** One call of an operation: the request it sent, if any, and its outcome. */
  datatype Exchange<+T> = Exchange(sent: Option<Request>, result: Result<T>)

  const MissingKeyMessage: string := "API_KEY is not defined. Please ensure it's set in your environment."
  const DefaultVisionPrompt: string :=
    "Analyze the objects in this image and provide English names, Turkish translations, and sophisticated example sentences."
  const DefaultImagePrompt: string := "Resim analizi"
  const VisionErrorMessage: string := "Resmi analiz ederken bir sorun oluştu. Lütfen tekrar deneyin."
  const GrammarFallback: string := "Üzgünüm, cümle analizi yapılamadı."
  const GrammarErrorMessage: string := "Dilbilgisini kontrol ederken bir sorun oluştu. Lütfen tekrar deneyin."
  const ChatFallback: string := "Üzgünüm, yanıt verilemedi."
  const ChatErrorMessage: string := "Sohbet ederken bir sorun oluştu. Lütfen tekrar deneyin."

  /** JavaScript's `s || d` on strings: the empty string is falsy. */
  function OrElse(s: string, d: string): string {
    if s == "" then d else s
  }

  // ---------------------------------------------------------------------
  // Reading a vision reply

  /** The vocabulary item a match stands for: its three captures, trimmed. */
  function Identified(b: RawBlock): IdentifiedObject {
    IdentifiedObject(Trim(b.term), Trim(b.translation), Trim(b.sentence))
  }

  /** Each field of an item is its capture with the white space at both ends stripped. */
  lemma IdentifiedTrims(b: RawBlock)
    ensures var o := Identified(b);
      IsTrimOf(o.english, b.term) && IsTrimOf(o.turkish, b.translation) && IsTrimOf(o.sentence, b.sentence)
  {
    TrimIsTrim(b.term);
    TrimIsTrim(b.translation);
    TrimIsTrim(b.sentence);
  }

  /**
   * `matches.map(...)`: the vocabulary items of a list of matches, in the same
   * order. Glue only; what the parse promises is on `ParseVisionResponse`.
   */
  function Items(ms: seq<Match>): (items: seq<IdentifiedObject>)
    ensures |items| == |ms|
    ensures forall i :: 0 <= i < |ms| ==> items[i] == Identified(ms[i].block)
  {
    seq(|ms|, i requires 0 <= i < |ms| => Identified(ms[i].block))
  }

  /**
   * Every match of the block pattern in the reply, in order, each turned into
   * a vocabulary item; `None` when there is no match at all.
   */
  function ParseVisionResponse(responseText: string): (r: Option<seq<IdentifiedObject>>)
    ensures r.None? <==> NoMatchIn(responseText, 0, |responseText| + 1)
    ensures r.Some? ==> |r.value| > 0
    ensures forall ms :: IsMatchAll(responseText, 0, ms) ==> r == if ms == [] then None else Some(Items(ms))
  {
    MatchAllIsScan(responseText);
    MatchAllEmptyIff(responseText, Scan(responseText, 0));
    var ms := Scan(responseText, 0);
    if ms == [] then None else Some(Items(ms))
  }

  /** Blocks written out one after the other are read back, trimmed, one item each, in order. */
  lemma ParseRenderAll(bs: seq<RawBlock>)
    requires bs != []
    requires forall i :: 0 <= i < |bs| ==> WellFormed(bs[i])
    ensures var r := ParseVisionResponse(RenderAll(bs));
      r.Some? && |r.value| == |bs| && forall i :: 0 <= i < |bs| ==> r.value[i] == Identified(bs[i])
  {
    RenderAllMatches(bs);
  }

  predicate NoAsterisk(s: string) {
    forall k :: 0 <= k < |s| ==> s[k] != '*'
  }

  /** A block surrounded by text without asterisks is the one item of the reply. */
  lemma ParseOneBlock(pre: string, b: RawBlock, post: string)
    requires WellFormed(b)
    requires NoAsterisk(pre) && NoAsterisk(post)
    ensures ParseVisionResponse(pre + Render(b) + post) == Some([Identified(b)])
  {
    OneBlockMatches(pre, b, post);
    assert Items([Match(|pre|, b)]) == [Identified(b)];
  }

  /** A reply that is one block and nothing else holds that block's item. */
  lemma ParseLoneBlock(b: RawBlock)
    requires WellFormed(b)
    ensures ParseVisionResponse(Render(b)) == Some([Identified(b)])
  {
    ParseOneBlock("", b, "");
    assert "" + Render(b) + "" == Render(b);
  }

  /** A reply without any asterisk holds no vocabulary item. */
  lemma ParseNoAsterisk(s: string)
    requires NoAsterisk(s)
    ensures ParseVisionResponse(s) == None
  {
    NoStarNoMatch(s, 0, |s| + 1);
  }

  /** A reply in which no `)` is directly followed by a line feed holds no vocabulary item. */
  lemma ParseNoParenLineFeed(s: string)
    requires forall k :: 0 <= k < |s| - 1 ==> !(s[k] == ')' && s[k + 1] == '\n')
    ensures ParseVisionResponse(s) == None
  {
    NoParenLineFeedNoMatch(s);
  }

  /** A string with no white space at either end is its own trim. */
  lemma TrimOfTrimmed(s: string)
    requires Clean(s)
    ensures Trim(s) == s
  {
    assert s[..0] == [] && s[|s|..] == [] && s == s[0..|s|];
    assert TrimBounds(s, 0, |s|);
    TrimUnique(s, s);
  }

  /** No white space at either end. */
  predicate Clean(s: string) {
    s == [] || (!IsWhiteSpace(s[0]) && !IsWhiteSpace(s[|s| - 1]))
  }

  /** A block whose captures have no white space at their ends is read back exactly. */
  lemma ParseCleanBlock(pre: string, b: RawBlock, post: string)
    requires WellFormed(b) && Clean(b.term) && Clean(b.translation) && Clean(b.sentence)
    requires NoAsterisk(pre) && NoAsterisk(post)
    ensures ParseVisionResponse(pre + Render(b) + post) == Some([IdentifiedObject(b.term, b.translation, b.sentence)])
  {
    ParseOneBlock(pre, b, post);
    TrimOfTrimmed(b.term);
    TrimOfTrimmed(b.translation);
    TrimOfTrimmed(b.sentence);
  }

  // ---------------------------------------------------------------------
  // The three operations

  /**
   * The outcome of a text request once the client exists: the reply's text,
   * or `fallback` when the text is empty; any error is replaced by `failure`.
   */
  function TextReply(reply: Reply, fallback: string, failure: string): (r: Result<string>)
    requires fallback != ""
    ensures r.Success? <==> reply.Replied?
    ensures r.Success? ==> r.value != ""
    ensures r.Success? && reply.text != "" ==> r.value == reply.text
    ensures reply.Replied? && reply.text == "" ==> r == Success(fallback)
    ensures r.Failure? ==> r.message == failure
  {
    match reply
    case Thrown => Failure(failure)
    case Replied(text) => Success(OrElse(text, fallback))
  }

  /** `analyzeImage`: sends the image with the user's prompt (or a default one) and reads the reply. */
  function AnalyzeImage(apiKey: string, imageFile: ImageFile, userPrompt: string, reply: Reply): (x: Exchange<Content>)
    ensures x.sent.None? <==> apiKey == ""
    ensures apiKey == "" ==> x.result == Failure(MissingKeyMessage)
    ensures apiKey != "" ==> x.sent == Some(VisionRequest(FlashImageModel, VisionInstruction,
                                                          imageFile.mimeType, imageFile.base64,
                                                          if userPrompt == "" then DefaultVisionPrompt else userPrompt))
    ensures x.result.Success? <==>
      apiKey != "" && reply.Replied? && ParseVisionResponse(reply.text).Some?
    ensures x.result.Failure? && apiKey != "" ==> x.result.message == VisionErrorMessage
    ensures x.result.Success? ==>
      x.result.value == ImageAnalysisContent(if userPrompt == "" then DefaultImagePrompt else userPrompt,
                                             ParseVisionResponse(reply.text).value)
      && |x.result.value.identifiedObjects| > 0
  {
    if apiKey == "" then Exchange(None, Failure(MissingKeyMessage))
    else
      var request := VisionRequest(FlashImageModel, VisionInstruction, imageFile.mimeType, imageFile.base64,
                                   OrElse(userPrompt, DefaultVisionPrompt));
      match reply
      case Thrown => Exchange(Some(request), Failure(VisionErrorMessage))
      case Replied(text) =>
        var parsed := ParseVisionResponse(text);
        if parsed.None? || |parsed.value| == 0 then Exchange(Some(request), Failure(VisionErrorMessage))
        else Exchange(Some(request), Success(ImageAnalysisContent(OrElse(userPrompt, DefaultImagePrompt), parsed.value)))
  }

  /** The user's sentence in single quotes after a fixed label. */
  function GrammarPrompt(userSentence: string): string {
    "User sentence: '" + userSentence + "'"
  }

  /** The sentence can be read back out of its prompt, so different sentences give different prompts. */
  lemma GrammarPromptRecovers(userSentence: string)
    ensures var p := GrammarPrompt(userSentence);
      |p| == |userSentence| + 17 && p[16..|p| - 1] == userSentence
  {
  }

  /** `checkGrammar`: asks for a correction of the quoted sentence. */
  function CheckGrammar(apiKey: string, userSentence: string, reply: Reply): (x: Exchange<string>)
    ensures x.sent.None? <==> apiKey == ""
    ensures apiKey == "" ==> x.result == Failure(MissingKeyMessage)
    ensures apiKey != "" ==>
      x.sent == Some(GrammarRequest(FlashModel, GrammarInstruction, GrammarPrompt(userSentence)))
      && x.result == TextReply(reply, GrammarFallback, GrammarErrorMessage)
    ensures apiKey != "" && reply == Replied("") ==> x.result == Success(GrammarFallback)
  {
    if apiKey == "" then Exchange(None, Failure(MissingKeyMessage))
    else Exchange(Some(GrammarRequest(FlashModel, GrammarInstruction, GrammarPrompt(userSentence))),
                  TextReply(reply, GrammarFallback, GrammarErrorMessage))
  }

  // ---------------------------------------------------------------------
  // Chat history

  /** The messages that are replayed to the chat: plain text and grammar corrections. */
  predicate IsDialogue(m: Message) {
    m.kind == Text || m.kind == GrammarCorrection
  }

  function RoleOf(sender: MessageSender): string {
    if sender == User then "user" else "model"
  }

  /** The chat entry a dialogue message becomes. */
  function TurnOf(m: Message): (t: ChatTurn)
    requires WellTyped(m) && IsDialogue(m)
    ensures t.role == "user" <==> m.sender == User
    ensures t.role == "model" <==> m.sender == Soulingo
    ensures m.content == TextContent(t.text)
  {
    ChatTurn(RoleOf(m.sender), m.content.text)
  }

  /** The history as the chat sees it: the dialogue messages, in order, each as a turn. */
  function Replay(h: seq<Message>): seq<ChatTurn>
    requires AllWellTyped(h)
  {
    if h == [] then []
    else
      var last := h[|h| - 1];
      Replay(h[..|h| - 1]) + (if IsDialogue(last) then [TurnOf(last)] else [])
  }

  lemma ReplayOne(m: Message)
    requires WellTyped(m)
    ensures Replay([m]) == if IsDialogue(m) then [TurnOf(m)] else []
  {
    assert [m][..0] == [];
  }

  /** Replaying a history split in two is replaying each part. */
  lemma {:induction false} ReplayAppend(a: seq<Message>, b: seq<Message>)
    requires AllWellTyped(a) && AllWellTyped(b)
    ensures AllWellTyped(a + b)
    ensures Replay(a + b) == Replay(a) + Replay(b)
    decreases |b|
  {
    if b == [] {
      assert a + b == a;
    } else {
      var b' := b[..|b| - 1];
      ReplayAppend(a, b');
      assert (a + b)[..|a + b| - 1] == a + b';
    }
  }

  /** Each replayed turn comes from a dialogue message, and there are no more turns than messages. */
  lemma {:induction false} ReplayFromDialogue(h: seq<Message>)
    requires AllWellTyped(h)
    ensures |Replay(h)| <= |h|
    ensures forall t :: t in Replay(h) ==> exists i :: 0 <= i < |h| && IsDialogue(h[i]) && t == TurnOf(h[i])
  {
    if h != [] {
      var h' := h[..|h| - 1];
      ReplayFromDialogue(h');
      forall t | t in Replay(h) ensures exists i :: 0 <= i < |h| && IsDialogue(h[i]) && t == TurnOf(h[i]) {
        if t in Replay(h') {
          var i :| 0 <= i < |h'| && IsDialogue(h'[i]) && t == TurnOf(h'[i]);
          assert h[i] == h'[i];
        } else {
          assert t == TurnOf(h[|h| - 1]);
        }
      }
    }
  }

  /** What `chat` returns or throws, whatever the history. */
  function ChatResult(apiKey: string, reply: Reply): (r: Result<string>)
    ensures r.Success? <==> apiKey != "" && reply.Replied?
    ensures apiKey == "" ==> r == Failure(MissingKeyMessage)
    ensures apiKey != "" ==> r == TextReply(reply, ChatFallback, ChatErrorMessage)
    ensures apiKey != "" && reply == Replied("") ==> r == Success(ChatFallback)
  {
    if apiKey == "" then Failure(MissingKeyMessage) else TextReply(reply, ChatFallback, ChatErrorMessage)
  }

  /**
   * `chat`: replays the dialogue messages of the history, in order, then sends
   * the new message.
   */
  method Chat(apiKey: string, chatHistory: seq<Message>, newMessage: string, reply: Reply)
    returns (x: Exchange<string>)
    requires AllWellTyped(chatHistory)
    ensures x.sent.None? <==> apiKey == ""
    ensures apiKey != "" ==> x.sent == Some(ChatRequest(FlashModel, ChatInstruction, Replay(chatHistory), newMessage))
    ensures x.result == ChatResult(apiKey, reply)
  {
    if apiKey == "" {
      return Exchange(None, Failure(MissingKeyMessage));
    }
    var formattedHistory: seq<ChatTurn> := [];
    var i := 0;
    while i < |chatHistory|
      invariant 0 <= i <= |chatHistory|
      invariant formattedHistory == Replay(chatHistory[..i])
    {
      var msg := chatHistory[i];
      assert chatHistory[..i + 1][..i] == chatHistory[..i];
      if msg.kind == Text || msg.kind == GrammarCorrection {
        formattedHistory := formattedHistory + [ChatTurn(if msg.sender == User then "user" else "model", msg.content.text)];
      }
      i := i + 1;
    }
    assert chatHistory[..i] == chatHistory;
    var request := ChatRequest(FlashModel, ChatInstruction, formattedHistory, newMessage);
    x := Exchange(Some(request), TextReply(reply, ChatFallback, ChatErrorMessage));
  }
}
