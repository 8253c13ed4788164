/**
 * The message box under the chat: a draft the user edits, sent as typed when
 * it holds more than white space and no request is in flight, then cleared.
 */
module ChatInputBox {
  import opened Text
  import opened Types

  /** The send button is disabled while loading or while the draft trims to nothing. */
  function SubmitDisabled(draft: string, isLoading: bool): bool {
    isLoading || Trim(draft) == ""
  }

  /** The button is disabled exactly when loading or when the draft is all white space. */
  lemma SubmitDisabledIff(draft: string, isLoading: bool)
    ensures SubmitDisabled(draft, isLoading) <==> isLoading || AllWhiteSpace(draft)
  {
    TrimEmptyIff(draft);
  }

  class ChatInput {
    var inputText: string

    constructor()
      ensures inputText == ""
    {
      inputText := "";
    }

    /** `handleInputChange`: the draft becomes the field's value. */
    method HandleInputChange(value: string)
      modifies this
      ensures inputText == value
    {
      inputText := value;
    }

    /**
     * `handleSubmit`: sends the draft as typed, untrimmed, exactly when the
     * send button would be enabled, and then clears it; otherwise nothing is
     * sent and the draft stays.
     */
    method HandleSubmit(isLoading: bool) returns (sent: Option<string>)
      modifies this
      ensures sent.Some? <==> !SubmitDisabled(old(inputText), isLoading)
      ensures sent.Some? ==> sent.value == old(inputText) && !AllWhiteSpace(sent.value) && inputText == ""
      ensures sent.None? ==> inputText == old(inputText)
    {
      TrimEmptyIff(inputText);
      if Trim(inputText) != "" && !isLoading {
        sent := Some(inputText);
        inputText := "";
      } else {
        sent := None;
      }
    }
  }
}
