/**
 * The notebook: a list of notes, newest first, a draft for the next note,
 * and the import of a plain-text file as a note headed by its file name.
 */
module NotebookPanel {
  import opened Text
  import opened Types

  const WrongTypeAlert: string := "Lütfen sadece .txt uzantılı metin dosyaları yükleyin."
  const ReadErrorAlert: string := "Dosya okunurken bir hata oluştu."

  /** The MIME type the import accepts; a file with no reported type is accepted too. */
  const PlainText: string := "text/plain"

  // ---------------------------------------------------------------------
  // Deleting

  /** `notes.filter(note => note.id !== id)`. */
  function Without(notes: seq<Note>, id: nat): seq<Note> {
    if notes == [] then []
    else (if notes[0].id != id then [notes[0]] else []) + Without(notes[1..], id)
  }

  /** The filter splits over a concatenation: the order of what is kept is the original order. */
  lemma {:induction false} WithoutAppend(a: seq<Note>, b: seq<Note>, id: nat)
    ensures Without(a + b, id) == Without(a, id) + Without(b, id)
  {
    if a == [] {
      assert a + b == b;
    } else {
      var kept := if a[0].id != id then [a[0]] else [];
      assert (a + b)[0] == a[0] && (a + b)[1..] == a[1..] + b;
      assert Without(a + b, id) == kept + Without(a[1..] + b, id);
      WithoutAppend(a[1..], b, id);
      assert Without(a, id) == kept + Without(a[1..], id);
    }
  }

  /** What remains is exactly the notes with another id. */
  lemma {:induction false} WithoutMembers(notes: seq<Note>, id: nat)
    ensures forall n :: n in Without(notes, id) <==> n in notes && n.id != id
    ensures |Without(notes, id)| <= |notes|
  {
    if notes != [] {
      WithoutMembers(notes[1..], id);
      assert notes == [notes[0]] + notes[1..];
    }
  }

  /** An id no note carries leaves the list as it was. */
  lemma {:induction false} WithoutAbsent(notes: seq<Note>, id: nat)
    requires forall i :: 0 <= i < |notes| ==> notes[i].id != id
    ensures Without(notes, id) == notes
  {
    if notes != [] {
      WithoutAbsent(notes[1..], id);
      assert notes == [notes[0]] + notes[1..];
    }
  }

  // ---------------------------------------------------------------------
  // Importing

  /** The first line of an imported note: a page emoji and the file name; a blank line follows. */
  function ImportHeader(fileName: string): string {
    "\U{1F4C4} " + fileName + "\n\n"
  }

  /** The text of the note a file with this name and content becomes. */
  function ImportedText(fileName: string, content: string): string {
    ImportHeader(fileName) + content
  }

  /** The text before the first line feed, or all of it when there is none. */
  function FirstLine(s: string): (r: string)
    ensures |r| <= |s| && r == s[..|r|]
    ensures forall k :: 0 <= k < |r| ==> r[k] != '\n'
    ensures |r| < |s| ==> s[|r|] == '\n'
  {
    if s == [] || s[0] == '\n' then [] else [s[0]] + FirstLine(s[1..])
  }

  /** The first line of a string is the prefix that holds no line feed and is followed by one. */
  lemma {:induction false} FirstLineOf(p: string, rest: string)
    requires forall k :: 0 <= k < |p| ==> p[k] != '\n'
    ensures FirstLine(p + "\n" + rest) == p
  {
    if p != [] {
      FirstLineOf(p[1..], rest);
      assert (p + "\n" + rest)[1..] == p[1..] + "\n" + rest;
    }
  }

  /**
   * For a file name without line feeds, the first line of the imported note
   * names the file, and the content is everything after the blank line.
   */
  lemma ImportedTextParts(fileName: string, content: string)
    requires forall k :: 0 <= k < |fileName| ==> fileName[k] != '\n'
    ensures var t := ImportedText(fileName, content);
      FirstLine(t) == "\U{1F4C4} " + fileName && t[|FirstLine(t)| + 2..] == content
  {
    var head := "\U{1F4C4} " + fileName;
    forall k | 0 <= k < |head| ensures head[k] != '\n' {
      if k >= 2 { assert head[k] == fileName[k - 2]; }
    }
    assert ImportedText(fileName, content) == head + "\n" + ("\n" + content);
    FirstLineOf(head, "\n" + content);
  }

  /** The import accepts a file whose browser-reported type is empty or plain text. */
  predicate AcceptedType(mimeType: string) {
    mimeType == "" || mimeType == PlainText
  }

  class Notebook {
    var notes: seq<Note>
    var newNoteText: string

    /** The notebook as it mounts; restoring saved notes is not part of this model. */
    constructor()
      ensures notes == [] && newNoteText == ""
    {
      notes := [];
      newNoteText := "";
    }

    /** The note field's change handler: the draft becomes the field's value. */
    method SetDraft(value: string)
      modifies this
      ensures newNoteText == value && notes == old(notes)
    {
      newNoteText := value;
    }

    /**
     * `handleAddNote`: a draft that trims to nothing is ignored; otherwise it
     * becomes, untrimmed, the first note, the earlier notes follow in order,
     * and the draft is cleared.
     */
    method HandleAddNote(now: nat, stamp: nat)
      modifies this
      ensures Trim(old(newNoteText)) == "" ==> notes == old(notes) && newNoteText == old(newNoteText)
      ensures Trim(old(newNoteText)) != "" ==>
        notes == [Note(now, old(newNoteText), stamp)] + old(notes) && newNoteText == ""
    {
      if Trim(newNoteText) == "" {
        return;
      }
      var newNote := Note(now, newNoteText, stamp);
      notes := [newNote] + notes;
      newNoteText := "";
    }

    /** `handleDeleteNote`: every note with the id goes, the others stay in order. */
    method HandleDeleteNote(id: nat)
      modifies this
      ensures notes == Without(old(notes), id)
      ensures forall n :: n in notes <==> n in old(notes) && n.id != id
      ensures newNoteText == old(newNoteText)
    {
      WithoutMembers(notes, id);
      notes := Without(notes, id);
    }

    /**
     * `handleFileUpload`: with no file nothing happens; a file of another type
     * is refused with an alert; a file that cannot be read raises the other
     * alert; a file with content becomes the first note, headed by its name.
     * An empty file adds nothing. The draft is never touched.
     */
    method HandleFileUpload(file: Option<PickedFile>, now: nat, stamp: nat) returns (alert: Option<string>)
      modifies this
      ensures newNoteText == old(newNoteText)
      ensures file.None? ==> notes == old(notes) && alert == None
      ensures file.Some? && !AcceptedType(file.value.mimeType) ==>
        notes == old(notes) && alert == Some(WrongTypeAlert)
      ensures file.Some? && AcceptedType(file.value.mimeType) && file.value.contents.Failure? ==>
        notes == old(notes) && alert == Some(ReadErrorAlert)
      ensures file.Some? && AcceptedType(file.value.mimeType) && file.value.contents.Success? ==>
        alert == None
        && notes == (if file.value.contents.value == "" then old(notes)
                     else [Note(now, ImportedText(file.value.name, file.value.contents.value), stamp)] + old(notes))
    {
      alert := None;
      if file.None? {
        return;
      }
      var f := file.value;
      if f.mimeType != "" && f.mimeType != PlainText {
        alert := Some(WrongTypeAlert);
        return;
      }
      match f.contents {
        case Failure(_) =>
          alert := Some(ReadErrorAlert);
        case Success(text) =>
          if text != "" {
            var newNote := Note(now, ImportedText(f.name, text), stamp);
            notes := [newNote] + notes;
          }
      }
    }
  }

  /** Deleting the note just added, when no earlier note shares its id, restores the list. */
  lemma DeleteUndoesAdd(notes: seq<Note>, n: Note)
    requires forall i :: 0 <= i < |notes| ==> notes[i].id != n.id
    ensures Without([n] + notes, n.id) == notes
  {
    WithoutAppend([n], notes, n.id);
    WithoutAbsent(notes, n.id);
    assert Without([n], n.id) == [];
  }

  /** Deleting never leaves a note with the id behind, and keeps every other note in place. */
  lemma DeleteKeepsOthers(pre: seq<Note>, n: Note, post: seq<Note>, id: nat)
    requires n.id != id
    ensures Without(pre + [n] + post, id) == Without(pre, id) + [n] + Without(post, id)
  {
    WithoutAppend(pre + [n], post, id);
    WithoutAppend(pre, [n], id);
    assert [n][1..] == [];
  }
}
