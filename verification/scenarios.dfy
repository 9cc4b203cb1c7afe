/**
  The unit tests of the calculator, as statements about the model: one shared
  window, reset before every test, then a few clicks and the values and texts
  the tests expect. Each test is stated for every window the fixture's reset
  can leave behind, that is every window whose tally is all zeros.
 */
module Scenarios {
  import opened Tally
  import opened Decimal
  import opened Display

  /** The fixture's `setUp`: every counter and the total back to zero, then
      `update_display`. */
  function Reset(w: App): (a: App)
    ensures Zeroed(a.tally) && Synced(a)
  {
    UpdateDisplay(w.(tally := Init()))
  }

  /** What a zeroed window shows: zeros everywhere, and a negative zero in
      both penalty fields. */
  lemma ZeroedDisplay(a: App)
    requires Zeroed(a.tally) && Synced(a)
    ensures && a.shown[TotalMarks] == "0.00"
            && a.shown[CorrectAnswers] == "0" && a.shown[IncorrectAnswers] == "0"
            && a.shown[TotalAnswered] == "0"
            && a.shown[MarkPlusOne] == "0" && a.shown[MarkPlusTwo] == "0"
            && a.shown[MarkMinusOneThird] == "-0.00" && a.shown[MarkMinusTwoThirds] == "-0.00"
            && a.shown[MarkZero] == "0 x 0"
  {
    var s := a.tally;
    assert Count(s, CorrectCount) == 0 && Count(s, IncorrectCount) == 0;
    assert Count(s, TotalQuestions) == 0;
    assert Count(s, Clicks(PlusOne)) == 0 && Count(s, Clicks(PlusTwo)) == 0;
    assert Count(s, Clicks(MinusOneThird)) == 0 && Count(s, Clicks(MinusTwoThirds)) == 0;
    assert Count(s, Clicks(Zero)) == 0;
    assert FormatFixed(false, 0) == "0.00" && FormatFixed(true, 0) == "-0.00";
    assert IntToDecimal(0) == "0";
  }

  /** Right after launch, and after every reset of the fixture, the window
      shows the zeroed texts. */
  lemma StartupDisplay(layoutTexts: map<Field, string>, w: App)
    ensures Zeroed(Launch(layoutTexts).tally) && Zeroed(Reset(w).tally)
    ensures Launch(layoutTexts).shown == Reset(w).shown
  {
    var a, b := Launch(layoutTexts), Reset(w);
    ZeroedDisplay(a);
    ZeroedDisplay(b);
    AllFieldsListed();
    assert a.shown.Keys == b.shown.Keys;
  }

  /** One click on a zeroed tally: the total is that button's worth and the
      question, the button and its kind are each counted once. */
  lemma FirstStep(s0: State, e: Event)
    requires Zeroed(s0)
    ensures var s := Step(s0, e);
      && s.marksThirds == Weight(e)
      && Count(s, TotalQuestions) == 1
      && Count(s, Clicks(e)) == 1
      && Count(s, CorrectCount) == (if KindOf(e) == Correct then 1 else 0)
      && Count(s, IncorrectCount) == (if KindOf(e) == Incorrect then 1 else 0)
  {
  }

  /** The texts after the first +1 click. */
  lemma AddOneMarkTexts(s: State)
    requires s.marksThirds == 3 && Count(s, Clicks(PlusOne)) == 1
    ensures Text(s, TotalMarks) == "1.00" && Text(s, MarkPlusOne) == "1"
  {
    assert Text(s, TotalMarks) == FormatFixed(false, 3) == "1.00";
    assert Text(s, MarkPlusOne) == IntToDecimal(1) == "1";
  }

  /** `test_add_1_mark`. */
  lemma AddOneMarkTest(a: App)
    requires Zeroed(a.tally)
    ensures var b := Click(a, PlusOne);
      && b.tally.marksThirds == 3
      && Count(b.tally, CorrectCount) == 1 && Count(b.tally, TotalQuestions) == 1
      && b.shown[TotalMarks] == "1.00" && b.shown[MarkPlusOne] == "1"
  {
    FirstStep(a.tally, PlusOne);
    AddOneMarkTexts(Step(a.tally, PlusOne));
  }

  /** The texts after the first +2 click. */
  lemma AddTwoMarksTexts(s: State)
    requires s.marksThirds == 6 && Count(s, Clicks(PlusTwo)) == 1
    ensures Text(s, TotalMarks) == "2.00" && Text(s, MarkPlusTwo) == "2"
  {
    assert Text(s, TotalMarks) == FormatFixed(false, 6) == "2.00";
    assert Text(s, MarkPlusTwo) == IntToDecimal(2) == "2";
  }

  /** `test_add_2_marks`. */
  lemma AddTwoMarksTest(a: App)
    requires Zeroed(a.tally)
    ensures var b := Click(a, PlusTwo);
      && b.tally.marksThirds == 6
      && Count(b.tally, CorrectCount) == 1 && Count(b.tally, TotalQuestions) == 1
      && b.shown[TotalMarks] == "2.00" && b.shown[MarkPlusTwo] == "2"
  {
    FirstStep(a.tally, PlusTwo);
    AddTwoMarksTexts(Step(a.tally, PlusTwo));
  }

  /** The texts after the first -1/3 click. */
  lemma SubOneThirdMarkTexts(s: State)
    requires s.marksThirds == -1 && Count(s, Clicks(MinusOneThird)) == 1
    ensures Text(s, TotalMarks) == "-0.33" && Text(s, MarkMinusOneThird) == "-0.33"
  {
    assert FormatFixed(true, 1) == "-0.33";
    assert Text(s, TotalMarks) == FormatFixed(true, 1);
    assert Text(s, MarkMinusOneThird) == FormatFixed(true, 1);
  }

  /** `test_sub_1_3_mark`. */
  lemma SubOneThirdMarkTest(a: App)
    requires Zeroed(a.tally)
    ensures var b := Click(a, MinusOneThird);
      && b.tally.marksThirds == -1
      && Count(b.tally, IncorrectCount) == 1 && Count(b.tally, TotalQuestions) == 1
      && b.shown[TotalMarks] == "-0.33" && b.shown[MarkMinusOneThird] == "-0.33"
  {
    FirstStep(a.tally, MinusOneThird);
    SubOneThirdMarkTexts(Step(a.tally, MinusOneThird));
  }

  /** The texts after the first -2/3 click. */
  lemma SubTwoThirdsMarkTexts(s: State)
    requires s.marksThirds == -2 && Count(s, Clicks(MinusTwoThirds)) == 1
    ensures Text(s, TotalMarks) == "-0.67" && Text(s, MarkMinusTwoThirds) == "-0.67"
  {
    assert FormatFixed(true, 2) == "-0.67";
    assert Text(s, TotalMarks) == FormatFixed(true, 2);
    assert Text(s, MarkMinusTwoThirds) == FormatFixed(true, 2);
  }

  /** `test_sub_2_3_mark`. */
  lemma SubTwoThirdsMarkTest(a: App)
    requires Zeroed(a.tally)
    ensures var b := Click(a, MinusTwoThirds);
      && b.tally.marksThirds == -2
      && Count(b.tally, IncorrectCount) == 1 && Count(b.tally, TotalQuestions) == 1
      && b.shown[TotalMarks] == "-0.67" && b.shown[MarkMinusTwoThirds] == "-0.67"
  {
    FirstStep(a.tally, MinusTwoThirds);
    SubTwoThirdsMarkTexts(Step(a.tally, MinusTwoThirds));
  }

  /** The texts after the first zero click. */
  lemma AddZeroMarkTexts(s: State)
    requires s.marksThirds == 0 && Count(s, Clicks(Zero)) == 1
    ensures Text(s, TotalMarks) == "0.00" && Text(s, MarkZero) == "0 x 1"
  {
    assert Text(s, TotalMarks) == FormatFixed(false, 0) == "0.00";
    assert Text(s, MarkZero) == "0 x " + IntToDecimal(1) == "0 x 1";
  }

  /** `test_add_0_mark`. */
  lemma AddZeroMarkTest(a: App)
    requires Zeroed(a.tally)
    ensures var b := Click(a, Zero);
      && b.tally.marksThirds == 0
      && Count(b.tally, CorrectCount) == 0 && Count(b.tally, IncorrectCount) == 0
      && Count(b.tally, TotalQuestions) == 1
      && b.shown[TotalMarks] == "0.00" && b.shown[MarkZero] == "0 x 1"
  {
    FirstStep(a.tally, Zero);
    AddZeroMarkTexts(Step(a.tally, Zero));
  }

  /** The tally side of `test_mixed_sequence`: five +1 clicks, eight +2 clicks
      and three zero clicks on a zeroed tally. */
  lemma MixedSequenceTally(s0: State, s1: State, s2: State, s3: State)
    requires Zeroed(s0)
    requires Repeated(s0, s1, 5, PlusOne) && Repeated(s1, s2, 8, PlusTwo)
    requires Repeated(s2, s3, 3, Zero)
    ensures Count(s1, Clicks(PlusOne)) == 5 && Count(s2, Clicks(PlusTwo)) == 8
    ensures Count(s3, Clicks(Zero)) == 3 && s3.marksThirds == 63
  {
    assert Count(s0, Clicks(PlusOne)) == 0 && Count(s1, Clicks(PlusTwo)) == 0;
    assert Count(s2, Clicks(Zero)) == 0;
  }

  /** The texts `test_mixed_sequence` checks after each group of clicks. */
  lemma MixedSequenceTexts(s1: State, s2: State, s3: State)
    requires Count(s1, Clicks(PlusOne)) == 5 && Count(s2, Clicks(PlusTwo)) == 8
    requires Count(s3, Clicks(Zero)) == 3 && s3.marksThirds == 63
    ensures Text(s1, MarkPlusOne) == "5" && Text(s2, MarkPlusTwo) == "16"
    ensures Text(s3, MarkZero) == "0 x 3" && Text(s3, TotalMarks) == "21.00"
  {
    assert Text(s1, MarkPlusOne) == IntToDecimal(5) == "5";
    assert Text(s2, MarkPlusTwo) == IntToDecimal(16) == "16";
    assert Text(s3, MarkZero) == "0 x " + IntToDecimal(3) == "0 x 3";
    assert Text(s3, TotalMarks) == FormatFixed(false, 63) == "21.00";
  }

  /** The windows of `test_mixed_sequence`, each group of clicks taken as its
      handlers followed by one refresh. */
  lemma MixedSequenceWindows(a: App, ones: seq<Event>, twos: seq<Event>, zeros: seq<Event>)
    requires Zeroed(a.tally)
    requires |ones| == 5 && AllClicksOf(ones, PlusOne)
    requires |twos| == 8 && AllClicksOf(twos, PlusTwo)
    requires |zeros| == 3 && AllClicksOf(zeros, Zero)
    ensures var a1 := ClickAll(a, ones);
            var a2 := ClickAll(a1, twos);
            var a3 := ClickAll(a2, zeros);
      && MarkPlusOne in a1.shown && a1.shown[MarkPlusOne] == "5"
      && MarkPlusTwo in a2.shown && a2.shown[MarkPlusTwo] == "16"
      && MarkZero in a3.shown && a3.shown[MarkZero] == "0 x 3"
      && TotalMarks in a3.shown && a3.shown[TotalMarks] == "21.00"
  {
    var a1 := ClickAll(a, ones);
    var a2 := ClickAll(a1, twos);
    var a3 := ClickAll(a2, zeros);
    RunFromRepeated(a.tally, ones, PlusOne);
    RunFromRepeated(a1.tally, twos, PlusTwo);
    RunFromRepeated(a2.tally, zeros, Zero);
    MixedSequenceTally(a.tally, a1.tally, a2.tally, a3.tally);
    MixedSequenceTexts(a1.tally, a2.tally, a3.tally);
  }

  /** `test_mixed_sequence`: the `range(5)`, `range(8)` and `range(3)` loops
      are the click sequences `ones`, `twos` and `zeros`, clicked one at a
      time, each click refreshing the window. */
  lemma MixedSequenceTest(a: App, ones: seq<Event>, twos: seq<Event>, zeros: seq<Event>)
    requires Zeroed(a.tally)
    requires |ones| == 5 && AllClicksOf(ones, PlusOne)
    requires |twos| == 8 && AllClicksOf(twos, PlusTwo)
    requires |zeros| == 3 && AllClicksOf(zeros, Zero)
    ensures var a1 := ClickInTurn(a, ones);
            var a2 := ClickInTurn(a1, twos);
            var a3 := ClickInTurn(a2, zeros);
      && MarkPlusOne in a1.shown && a1.shown[MarkPlusOne] == "5"
      && MarkPlusTwo in a2.shown && a2.shown[MarkPlusTwo] == "16"
      && MarkZero in a3.shown && a3.shown[MarkZero] == "0 x 3"
      && TotalMarks in a3.shown && a3.shown[TotalMarks] == "21.00"
  {
    var a1 := ClickInTurn(a, ones);
    var a2 := ClickInTurn(a1, twos);
    ClickInTurnIsClickAll(a, ones);
    ClickInTurnIsClickAll(a1, twos);
    ClickInTurnIsClickAll(a2, zeros);
    MixedSequenceWindows(a, ones, twos, zeros);
  }
}
