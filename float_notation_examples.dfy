/** Worked inputs for `replace_float_notation`. */
module FloatNotationExamples {
  import opened Wrappers
  import opened FloatNotation
  import PyText

  /** A last field with a decimal comma, `"x":1,2}`. */
  const EndOfObject: string := "\"x\":1,2}"

  lemma EndOfObjectCommaMatches()
    ensures FindAll(EndOfObject, 0, ',') == [Match(0, 4, 5)]
  {
    assert KeyRunEnd(EndOfObject, 1) == 2;
    assert NumRunEnd(EndOfObject, 4) == 7;
    assert LastTerm(EndOfObject, 4, 7, ',') == Some(5);
    assert MatchAt(EndOfObject, 0, ',') == Some(Match(0, 4, 5));
    assert MatchAt(EndOfObject, 6, ',') == None;
    assert MatchAt(EndOfObject, 7, ',') == None;
  }

  lemma EndOfObjectBraceMatches()
    ensures FindAll(EndOfObject, 0, '}') == [Match(0, 4, 7)]
  {
    assert KeyRunEnd(EndOfObject, 1) == 2;
    assert NumRunEnd(EndOfObject, 4) == 7;
    assert LastTerm(EndOfObject, 4, 7, '}') == Some(7);
    assert MatchAt(EndOfObject, 0, '}') == Some(Match(0, 4, 7));
  }

  lemma EndOfObjectCommaGroups()
    ensures MatchedNumbers(EndOfObject, ',') == ["1"]
  {
    EndOfObjectCommaMatches();
    assert [Match(0, 4, 5)][..0] == [];
    assert EndOfObject[4..5] == "1";
  }

  lemma EndOfObjectBraceGroups()
    ensures MatchedNumbers(EndOfObject, '}') == ["1,2"]
  {
    EndOfObjectBraceMatches();
    assert [Match(0, 4, 7)][..0] == [];
    assert EndOfObject[4..7] == "1,2";
  }

  lemma EndOfObjectCommaPass()
    ensures Pass(EndOfObject, ',') == EndOfObject
  {
    EndOfObjectCommaGroups();
    assert Pass(EndOfObject, ',') == ReplaceEach(EndOfObject, ["1"]);
    assert ["1"][..0] == [];
    PyText.ReplaceChar("1", ',', '.');
    assert Dotted("1") == "1";
    PyText.ReplaceBySelf(EndOfObject, "1");
  }

  lemma EndOfObjectReplace()
    ensures PyText.Replace(EndOfObject, "1,2", "1.2") == "\"x\":1.2}"
  {
    var s := EndOfObject;
    assert PyText.Replace(s[7..], "1,2", "1.2") == "}";
    assert PyText.Replace(s[4..], "1,2", "1.2") == "1.2}";
  }

  lemma EndOfObjectBracePass()
    ensures Pass(EndOfObject, '}') == "\"x\":1.2}"
  {
    EndOfObjectBraceGroups();
    PyText.ReplaceChar("1,2", ',', '.');
    assert Dotted("1,2") == "1.2";
    EndOfObjectReplace();
  }

  /** The comma pattern backtracks to the group `1`, whose replacement
      changes nothing; the end-of-object pattern, applied second, then
      rewrites `1,2` to `1.2`. */
  lemma EndOfObjectRepaired()
    ensures Repaired(EndOfObject) == "\"x\":1.2}"
  {
    EndOfObjectCommaPass();
    EndOfObjectBracePass();
    assert Terminators[..1] == [','] && Terminators[..1][..0] == [];
    assert Passes(EndOfObject, [',']) == EndOfObject;
  }

  /** The example of the function's own documentation, with a space after
      each colon: no pattern matches, so the text is returned unchanged. */
  const Documented: string := "\"test\": 1,2, \"key\": 2"

  lemma DocumentedUnchanged()
    ensures Repaired(Documented) == Documented
  {
    assert !NumberAfterKeyFrom(Documented, 15);
    assert !NumberAfterKeyFrom(Documented, 10);
    assert !NumberAfterKeyFrom(Documented, 5);
    assert !NumberAfterKeyFrom(Documented, 0);
    NoNumberAfterKeyUnchanged(Documented);
  }
}
