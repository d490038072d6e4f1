/** Cell values and their clean-up (`build_mapping`, app.py:585-644). */
module Values {
  import opened Wrappers
  import opened Text

  /** One spreadsheet cell as pandas hands it over: a missing value (NaN,
      None, NaT), a value whose `str()` is `text`, or a value whose `str()`
      raises. */
  datatype Cell = Missing | Value(text: string) | Unprintable

  /** `str(row[col]) if pd.notna(row[col]) else ""`. */
  function CellText(c: Cell): (r: Result<string>)
    ensures r.Raised? <==> c.Unprintable?
    ensures c.Missing? ==> r == Ok("")
  {
    match c
    case Missing => Ok("")
    case Value(t) => Ok(t)
    case Unprintable => Raised
  }

  /** The text forms of missing values, compared after lower-casing. */
  const Sentinels: seq<string> := ["nan", "none", "nat"]

  /** The clean-up step: an empty text or a sentinel (tested BEFORE
      trimming) gives the empty text; anything else is trimmed. */
  function CleanValue(raw: string): (r: string)
    ensures r == "" <==> raw == "" || Lower(raw) in Sentinels || Strip(raw) == ""
    ensures r != "" ==> r == Strip(raw)
    ensures r == [] || (!IsSpace(r[0]) && !IsSpace(r[|r| - 1]))
  {
    if raw != "" && Lower(raw) !in Sentinels then Strip(raw) else ""
  }

  /** A text without surrounding whitespace that is not a sentinel passes
      clean-up unchanged. */
  lemma CleanPlainText(t: string)
    requires t != [] && !IsSpace(t[0]) && !IsSpace(t[|t| - 1])
    requires |t| > 4
    ensures CleanValue(t) == t
  {
    StripUnpadded(t);
    assert |Lower(t)| > 4;
  }

  /** Because the sentinel test sees the untrimmed text, a padded sentinel
      survives clean-up as the bare sentinel, which a second clean-up would
      then drop. */
  lemma PaddedSentinelSurvives()
    ensures CleanValue(" nan ") == "nan"
    ensures CleanValue(CleanValue(" nan ")) == ""
  {
    StripUnpadded("nan");
    assert Strip(" nan ") == "nan";
    assert Lower("nan") == "nan";
  }

  /** The tag of the duration slot and the unit word it is given. */
  const DurationTag: string := "مدتها"
  const DayWord: string := "يوم"

  /** The duration formatting of app.py:631-644: a number (dots ignored)
      gets the day unit; any other non-blank text gets it unless it already
      mentions it. */
  function FormatDuration(v: string): (r: string)
    ensures AllDigits(RemoveDots(Strip(v))) ==> r == Strip(v) + " " + DayWord
    ensures Contains(Strip(v), DayWord) ==> r == v
    ensures Strip(v) != "" ==> Contains(r, DayWord)
    ensures Strip(v) == "" ==> r == v
  {
    var number := Strip(v);
    if AllDigits(number) || AllDigits(RemoveDots(number)) then
      DigitsHoldNoDayWord(number);
      DayWordAppended(number);
      number + " " + DayWord
    else if number != "" then
      if !Contains(number, DayWord) then
        DayWordAppended(number);
        number + " " + DayWord
      else
        ContainsStripped(v, DayWord);
        v
    else v
  }

  /** A text made of digits and dots never mentions the day unit. */
  lemma DigitsHoldNoDayWord(x: string)
    requires AllDigits(x) || AllDigits(RemoveDots(x))
    ensures !Contains(x, DayWord)
  {
    if Contains(x, DayWord) {
      ContainsChar(x, DayWord, 0);
      assert false;
    }
  }

  /** Appending the unit yields a text that mentions it. */
  lemma DayWordAppended(x: string)
    ensures Contains(x + " " + DayWord, DayWord)
  {
    var s := x + " " + DayWord;
    assert s[|x| + 1..|x| + 1 + |DayWord|] == DayWord;
    ContainsAt(s, DayWord, |x| + 1);
  }

  /** The digit test is redundant: formatting is "append the unit to the
      trimmed text unless it is blank or already mentions the unit". */
  lemma FormatDurationByDayWord(v: string)
    ensures FormatDuration(v) ==
      if Strip(v) == "" || Contains(Strip(v), DayWord) then v else Strip(v) + " " + DayWord
  {
    var number := Strip(v);
    if AllDigits(number) || AllDigits(RemoveDots(number)) {
      DigitsHoldNoDayWord(number);
    }
  }

  /** Formatting its own output changes nothing. */
  lemma {:induction false} FormatDurationIdempotent(v: string)
    ensures FormatDuration(FormatDuration(v)) == FormatDuration(v)
  {
    var number := Strip(v);
    FormatDurationByDayWord(v);
    if number != "" && !Contains(number, DayWord) {
      var r := number + " " + DayWord;
      assert r[|r| - 1] == DayWord[|DayWord| - 1];
      StripUnpadded(r);
      DayWordAppended(number);
    }
  }

  /** A bare count gets the unit ... */
  lemma DurationOfBareCount()
    ensures FormatDuration("3") == "3 يوم"
  {
    StripUnpadded("3");
    assert RemoveDots("3") == "3";
  }

  /** ... and a count that already carries the unit is left alone. */
  lemma DurationOfSuffixedCount()
    ensures FormatDuration("3 يوم") == "3 يوم"
  {
    var v := "3" + " " + DayWord;
    assert v == "3 يوم";
    DayWordAppended("3");
    assert v[|v| - 1] == DayWord[|DayWord| - 1];
    StripUnpadded(v);
    assert Contains(Strip(v), DayWord);
  }

  /** The whole value pipeline for one slot: clean up, then format when the
      slot is the duration slot. */
  function Normalise(raw: string, tag: string): (r: string)
    ensures r == "" <==> CleanValue(raw) == ""
    ensures tag != DurationTag ==> r == CleanValue(raw)
    ensures tag == DurationTag && r != "" ==> Contains(r, DayWord)
  {
    var v := CleanValue(raw);
    if v != "" && tag == DurationTag then
      StripUnpadded(v);
      FormatDuration(v)
    else v
  }
}
