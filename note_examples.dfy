/**
 Worked examples of the note-merge rule, kept apart from the rule itself.
 */
module NoteExamples {
  import opened Notes

  /** An example of the note-append law: "A" merged with "B" is "A | B". */
  lemma MergeExampleAppend()
    ensures MergeNote(Text("A"), "B") == Text("A | B")
  {
    var a, b := "A", "B";
    assert Clean(a) && Clean(b);
    assert a + Separator + b == "A | B";
    MergeAppends(a, b);
  }

  /** An example: a missing note merged with "follow up" is "follow up". */
  lemma MergeExampleOntoMissing()
    ensures MergeNote(Missing, "follow up") == Text("follow up")
  {
    MergeOntoEmptyClean(Missing, "follow up");
  }
}
