/**
 * Concrete vision replies and what the parser reads out of them.
 */
module VisionReplyExamples {
  import opened Text
  import opened Types
  import opened VisionBlocks
  import opened GeminiService

  /** No character that could end a capture or open a block. */
  predicate Plain(s: string) {
    forall k :: 0 <= k < |s| ==> s[k] != '*' && s[k] != ')' && s[k] != '\'' && !IsLineTerminator(s[k])
  }

  lemma NoAsteriskAppend(a: string, b: string)
    requires NoAsterisk(a) && NoAsterisk(b)
    ensures NoAsterisk(a + b)
  {
    forall k | |a| <= k < |a + b| ensures (a + b)[k] == b[k - |a|] {}
  }

  lemma PlainAppend(a: string, b: string)
    requires Plain(a) && Plain(b)
    ensures Plain(a + b)
  {
    forall k | |a| <= k < |a + b| ensures (a + b)[k] == b[k - |a|] {}
  }

  /**
   * The example of the vision instruction: the sentence capture is lazy, so it
   * stops at the apostrophe of "day's" and what follows on the line is dropped.
   */
  lemma ParseInstructionExample()
    ensures ParseVisionResponse(
      ("Merhaba! Masandaki nesneleri " + "analiz ettim. İşte bulduklarım:\n\n")
      + Render(RawBlock("Coffee Mug", "Kahve Kupası",
                        "I usually start my day with a " + "strong espresso in my favorite "
                        + "ceramic mug, contemplating the day"))
      + "s tasks.'")
      == Some([IdentifiedObject("Coffee Mug", "Kahve Kupası",
                                "I usually start my day with a " + "strong espresso in my favorite "
                                + "ceramic mug, contemplating the day")])
  {
    InstructionSurroundings();
    InstructionExampleParts();
    ParseCleanBlock("Merhaba! Masandaki nesneleri " + "analiz ettim. İşte bulduklarım:\n\n",
                    RawBlock("Coffee Mug", "Kahve Kupası",
                             "I usually start my day with a " + "strong espresso in my favorite "
                             + "ceramic mug, contemplating the day"),
                    "s tasks.'");
  }

  lemma InstructionSurroundings()
    ensures NoAsterisk("Merhaba! Masandaki nesneleri " + "analiz ettim. İşte bulduklarım:\n\n")
    ensures NoAsterisk("s tasks.'")
  {
    NoAsteriskAppend("Merhaba! Masandaki nesneleri ", "analiz ettim. İşte bulduklarım:\n\n");
  }

  lemma InstructionExampleParts()
    ensures WellFormed(RawBlock("Coffee Mug", "Kahve Kupası",
                                "I usually start my day with a " + "strong espresso in my favorite "
                                + "ceramic mug, contemplating the day"))
    ensures Clean("Coffee Mug") && Clean("Kahve Kupası")
    ensures Clean("I usually start my day with a " + "strong espresso in my favorite "
                  + "ceramic mug, contemplating the day")
  {
    ExampleSentenceParts();
  }

  lemma ExampleSentenceParts()
    ensures Plain("I usually start my day with a " + "strong espresso in my favorite "
                  + "ceramic mug, contemplating the day")
    ensures Clean("I usually start my day with a " + "strong espresso in my favorite "
                  + "ceramic mug, contemplating the day")
  {
    var s1, s2, s3 := "I usually start my day with a ", "strong espresso in my favorite ", "ceramic mug, contemplating the day";
    PlainLiteral(s1);
    PlainLiteral(s2);
    PlainLiteral(s3);
    PlainAppend(s1, s2);
    PlainAppend(s1 + s2, s3);
    assert (s1 + s2 + s3)[0] == s1[0];
    assert (s1 + s2 + s3)[|s1 + s2 + s3| - 1] == s3[|s3| - 1];
  }

  /** A literal without capture-ending characters is plain, checked one character at a time. */
  lemma {:induction false} PlainLiteral(s: string)
    requires forall k :: 0 <= k < |s| ==> s[k] in "abcdefghijklmnopqrstuvwxyzIC ,"
    ensures Plain(s)
  {
  }

  /** A greeting, one block and a trailing line break. */
  lemma ParseGreetingAndBlock()
    ensures ParseVisionResponse("Merhaba!\n\n" + Render(RawBlock("Coffee Mug", "Kahve Kupası", "I love my mug.")) + "\n")
      == Some([IdentifiedObject("Coffee Mug", "Kahve Kupası", "I love my mug.")])
  {
    GreetingSurroundings();
    GreetingParts();
    ParseCleanBlock("Merhaba!\n\n", RawBlock("Coffee Mug", "Kahve Kupası", "I love my mug."), "\n");
  }

  lemma GreetingSurroundings()
    ensures NoAsterisk("Merhaba!\n\n") && NoAsterisk("\n")
  {
  }

  lemma GreetingParts()
    ensures WellFormed(RawBlock("Coffee Mug", "Kahve Kupası", "I love my mug."))
    ensures Clean("Coffee Mug") && Clean("Kahve Kupası") && Clean("I love my mug.")
  {
  }

  /** White space around the captures is trimmed away; a capture may trim to nothing. */
  lemma ParsePaddedBlock(term: string, translation: string)
    requires WellFormed(RawBlock(term, translation, "")) && Clean(term) && Clean(translation)
    ensures ParseVisionResponse(Render(RawBlock(" " + term + " ", " " + translation + " ", " ")))
      == Some([IdentifiedObject(term, translation, "")])
  {
    var b := RawBlock(" " + term + " ", " " + translation + " ", " ");
    PaddedWellFormed(term, translation);
    ParseLoneBlock(b);
    PaddedItem(term, translation);
  }

  /** The item of the padded block is the unpadded captures and an empty sentence. */
  lemma PaddedItem(term: string, translation: string)
    requires term != [] && translation != [] && Clean(term) && Clean(translation)
    ensures Identified(RawBlock(" " + term + " ", " " + translation + " ", " "))
      == IdentifiedObject(term, translation, "")
  {
    Padded(term);
    Padded(translation);
    TrimEmptyIff(" ");
  }

  /** Padding the captures with spaces keeps the block well formed. */
  lemma PaddedWellFormed(term: string, translation: string)
    requires WellFormed(RawBlock(term, translation, ""))
    ensures WellFormed(RawBlock(" " + term + " ", " " + translation + " ", " "))
  {
    var b := RawBlock(" " + term + " ", " " + translation + " ", " ");
    forall k | 0 <= k < |b.term| ensures b.term[k] != '*' {
      if 0 < k < |b.term| - 1 { assert b.term[k] == term[k - 1]; }
    }
    forall k | 0 <= k < |b.translation| ensures b.translation[k] != ')' {
      if 0 < k < |b.translation| - 1 { assert b.translation[k] == translation[k - 1]; }
    }
  }

  /** One space on either side of a clean non-empty string is trimmed off. */
  lemma Padded(s: string)
    requires s != [] && Clean(s)
    ensures Trim(" " + s + " ") == s
  {
    var p := " " + s + " ";
    assert p[0] == ' ' && p[|p| - 1] == ' ' && p[1] == s[0] && p[|p| - 2] == s[|s| - 1];
    assert p[1..|p| - 1] == s;
    assert TrimBounds(p, 1, |p| - 1);
    TrimUnique(s, p);
  }

  /**
   * A block as in the instruction but with a carriage return before the line
   * feed: the expression has no room for the `\r`, so nothing is read.
   */
  lemma ParseCrLfBlock(term: string, translation: string, sentence: string)
    requires forall k :: 0 <= k < |term| ==> term[k] != '\n'
    requires forall k :: 0 <= k < |translation| ==> translation[k] != '\n'
    requires forall k :: 0 <= k < |sentence| ==> sentence[k] != '\n'
    ensures ParseVisionResponse("**" + term + "** (Türkçesi: " + translation + ")\r\nExample: '" + sentence + "'") == None
  {
    var close1, close2 := "** (Türkçesi: ", ")\r\nExample: '";
    var s := "**" + term + close1 + translation + close2 + sentence + "'";
    var o1 := 2 + |term|;
    var o2 := o1 + |close1|;
    var o3 := o2 + |translation|;
    var o4 := o3 + |close2|;
    assert forall j :: 0 <= j < |close1| ==> close1[j] != '\n';
    assert forall j :: 0 <= j < |close2| && j != 2 ==> close2[j] != '\n';
    forall k | 0 <= k < |s| && k != o3 + 2 ensures s[k] != '\n' {
      if k < 2 {
      } else if k < o1 {
        assert s[k] == term[k - 2];
      } else if k < o2 {
        assert s[k] == close1[k - o1];
      } else if k < o3 {
        assert s[k] == translation[k - o2];
      } else if k < o4 {
        assert s[k] == close2[k - o3];
      } else if k < o4 + |sentence| {
        assert s[k] == sentence[k - o4];
      } else {
        assert s[k] == '\'';
      }
    }
    assert s[o3 + 1] == close2[1] == '\r';
    ParseNoParenLineFeed(s);
  }
}
