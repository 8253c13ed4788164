/**
 * The value types shared by the tutor: chat messages, image files, notes and
 * the application's modes. Clock readings (`Date.now()`, `new Date()`) are
 * abstract natural numbers; identifiers built from them keep the clock value
 * and the fixed suffix the caller appends to it.
 */
module Types {

  datatype Option<+T> = None | Some(value: T)

  /** A value, or the message of the error that was thrown instead. */
  datatype Result<+T> = Success(value: T) | Failure(message: string)

  datatype MessageSender = User | Soulingo

  datatype MessageType = Text | ImageAnalysis | GrammarCorrection

  /** One vocabulary item read out of a vision reply. */
  datatype IdentifiedObject = IdentifiedObject(english: string, turkish: string, sentence: string)

  /** The two payload shapes a message can carry. */
  datatype Content =
    | TextContent(text: string)
    | ImageAnalysisContent(imagePrompt: string, identifiedObjects: seq<IdentifiedObject>)

  /** `'welcome'`, or a clock reading followed by a fixed suffix such as `'-ai-text'`. */
  datatype MessageId = WelcomeId | StampedId(millis: nat, suffix: string)

  datatype Message = Message(id: MessageId, sender: MessageSender, timestamp: nat,
                             kind: MessageType, content: Content)

  /** The payload variant agrees with the declared message type. */
  predicate WellTyped(m: Message) {
    (m.kind == ImageAnalysis) == m.content.ImageAnalysisContent?
  }

  predicate AllWellTyped(h: seq<Message>) {
    forall i :: 0 <= i < |h| ==> WellTyped(h[i])
  }

  /** An image ready to be sent: its base64 data, MIME type and file name. */
  datatype ImageFile = ImageFile(base64: string, mimeType: string, fileName: string)

  /**
   * A file the user picked in a file input: its name, its MIME type (`""`
   * when the browser reports none) and what reading it produced, the text
   * (base64 for an image) or the reader's error message.
   */
  datatype PickedFile = PickedFile(name: string, mimeType: string, contents: Result<string>)

  /** A notebook entry; the identifier is the clock reading at creation. */
  datatype Note = Note(id: nat, text: string, timestamp: nat)

  datatype AppMode = Landing | Chat | Vision | Notebook
}
