/**
 * Worked examples of the cleaning steps on one- and two-row inputs.
 */
module PipelineExamples {
  import opened Wrappers
  import opened Strings
  import opened Whitespace
  import opened CleanText
  import opened CleanTextExamples
  import opened Dataset
  import opened Pipeline
  import opened PipelineProperties

  /** An answer of exactly the minimum length. */
  function LongAnswer(): (a: string)
    ensures |a| == MinLength && forall i :: 0 <= i < |a| ==> a[i] == 'a'
  {
    seq(50, i => 'a')
  }

  lemma LongAnswerIsPlain()
    ensures Clean(Some(LongAnswer())) == LongAnswer()
  {
    var a := LongAnswer();
    NoWhitespaceAt(a);
    NoWhitespaceFixed(a);
    CleanFixesPlain(a);
  }

  lemma LongAnswerHasNoMarker()
    ensures !ContainsIgnoreCase(LongAnswer(), ErrorMarker)
  {
    MarkerLetters();
    var a := LongAnswer();
    var e := LowerAll(ErrorMarker);
    assert e[0] == 'e';
    forall i | 0 <= i <= |a| - |e|
      ensures !OccursAt(a, i, e, true)
    {
      assert Canon(a[i + 0], true) == 'a';
    }
  }

  lemma ShortAnswerIsPlain()
    ensures Clean(Some("a")) == "a"
  {
    assert NoWhitespace("a");  // checked on the literal by unfolding
    NoWhitespaceFixed("a");
    CleanFixesPlain("a");
  }

  lemma ShortAnswerHasNoMarker()
    ensures !ContainsIgnoreCase("a", ErrorMarker)
  {
    MarkerLetters();
  }

  function BlankTitled(): Row
  {
    Row(Some(1), Some(" \t\n"), Some(" \t\n"), Some(LongAnswer()), Some(LongAnswer()))
  }

  lemma BlankTitledCleaned()
    ensures CleanRow(BlankTitled()) == Row(Some(1), Some(""), Some(""), Some(LongAnswer()), Some(LongAnswer()))
  {
    BlankIsEmpty();
    LongAnswerIsPlain();
  }

  lemma BlankTitledValid()
    ensures ValidRow(BlankTitled())
  {
    LongAnswerHasNoMarker();
  }

  /** A question whose title and body are blank is still written out, with empty title and body. */
  lemma BlankTitleSurvives()
    ensures Cleaned([BlankTitled()], MinLength) ==
      [Row(Some(1), Some(""), Some(""), Some(LongAnswer()), Some(LongAnswer()))]
  {
    BlankTitledCleaned();
    BlankTitledValid();
    SingleRow(BlankTitled(), MinLength);
  }

  function ShortFirst(): Row
  {
    Row(Some(7), Some("q"), Some("q"), Some("a"), Some("a"))
  }

  function LongSecond(): Row
  {
    Row(Some(7), Some("q"), Some("q"), Some(LongAnswer()), Some(LongAnswer()))
  }

  /**
   * Two rows with the same question id: the first is too short and the
   * second long enough. Duplicates are dropped first, so the second row is
   * gone before the length filter removes the first, and nothing is written.
   */
  lemma ShortDuplicateHidesLongOne()
    ensures Cleaned([ShortFirst(), LongSecond()], MinLength) == []
  {
    var raw := [ShortFirst(), LongSecond()];
    ShortFirstNotKept(raw);
    LongSecondValid();
    EarlierDuplicateWins(raw, MinLength, 0, 1);
    NothingKept(raw, MinLength);
  }

  lemma ShortFirstNotKept(raw: seq<Row>)
    requires raw == [ShortFirst(), LongSecond()]
    ensures ValidRow(raw[0]) && !Kept(raw, 0, MinLength)
  {
    ShortAnswerIsPlain();
    ShortAnswerHasNoMarker();
    assert |CleanRow(raw[0]).humanAnswer.value| == 1;
  }

  lemma LongSecondValid()
    ensures ValidRow(LongSecond())
  {
    LongAnswerHasNoMarker();
  }
}
