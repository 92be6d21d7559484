/** The two user-facing texts of platelet: the yes/no confirmation and the variable listing. */
module Messages {
  import opened Text
  import opened Variables

  /** `yes_no`: the answer, lower-cased, is one of `y` and `yes`. */
  predicate Confirmed(answer: string)
  {
    Lower(answer) in ["y", "yes"]
  }

  /** The answers accepted by `yes_no` are exactly the spellings of `y` and `yes` in any letter case. */
  lemma ConfirmedAnswers(answer: string)
    ensures Confirmed(answer) <==>
      answer in ["y", "Y", "yes", "yeS", "yEs", "yES", "Yes", "YeS", "YEs", "YES"]
  {
    if Confirmed(answer) {
      if |answer| == 1 {
        assert LowerChar(answer[0]) == 'y';
        assert answer[0] == 'y' || answer[0] == 'Y';
        assert answer == [answer[0]];
      } else {
        assert |answer| == 3;
        assert LowerChar(answer[0]) == 'y' && LowerChar(answer[1]) == 'e' && LowerChar(answer[2]) == 's';
        assert answer[0] == 'y' || answer[0] == 'Y';
        assert answer[1] == 'e' || answer[1] == 'E';
        assert answer[2] == 's' || answer[2] == 'S';
        assert answer == [answer[0], answer[1], answer[2]];
      }
    }
    if |answer| == 1 {
      assert Lower(answer) == [LowerChar(answer[0])];
    } else if |answer| == 3 {
      assert Lower(answer) == [LowerChar(answer[0]), LowerChar(answer[1]), LowerChar(answer[2])];
    }
  }

  /** The lines printed by `print_vars` for a template text. */
  function VarsReport(content: string): seq<string>
  {
    var names := Dedup(References(content));
    if |names| > 0 then ["Variables:", Join(names, ", ")] else ["No variables"]
  }

  /**
   * The report says "No variables" exactly when the text references none;
   * otherwise its second line, split at ", ", gives back the discovered names.
   */
  lemma VarsReportLists(content: string)
    ensures VarsReport(content) == ["No variables"] <==> forall k, name :: !ReferenceAt(content, k, name)
    ensures VarsReport(content) != ["No variables"] ==>
      && |VarsReport(content)| == 2
      && VarsReport(content)[0] == "Variables:"
      && Split(VarsReport(content)[1], ", ") == Dedup(References(content))
  {
    var names := Dedup(References(content));
    ReferencesExact(content);
    ReferencesComplete(content);
    if |names| > 0 {
      assert names[0] in References(content);
      forall i | 0 <= i < |names| ensures ", "[0] !in names[i] {
        ReferencedNamesAreWords(content, names[i]);
        assert !IsWordChar(',');
      }
      SplitJoin(names, ", ");
    } else {
      assert forall name :: name !in References(content);
    }
  }
}
