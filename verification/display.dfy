/**
  What the calculator window shows: the nine read-only text fields that
  `update_display` rewrites from the tally after every click, and the window
  as a tally together with the texts currently shown.
 */
module Display {
  import opened Tally
  import opened Decimal

  /** The nine line edits: `lineEdit_total_marks`, `lineEdit_correct_ans`,
      `lineEdit_incorrect`, `lineEdit_total`, and the per-button fields
      `lineEdit_mark_pos_1`, `lineEdit_mark_pos_2`,
      `lineEdit_mark_neg_onethird`, `lineEdit_mark_neg_twothird`,
      `lineEdit_mark_pos_0`. */
  datatype Field =
    | TotalMarks | CorrectAnswers | IncorrectAnswers | TotalAnswered
    | MarkPlusOne | MarkPlusTwo | MarkMinusOneThird | MarkMinusTwoThirds | MarkZero

  const AllFields: set<Field> := {
    TotalMarks, CorrectAnswers, IncorrectAnswers, TotalAnswered,
    MarkPlusOne, MarkPlusTwo, MarkMinusOneThird, MarkMinusTwoThirds, MarkZero
  }

  lemma AllFieldsListed()
    ensures forall f :: f in AllFields
  {
    forall f ensures f in AllFields {
      match f
      case TotalMarks =>
      case CorrectAnswers =>
      case IncorrectAnswers =>
      case TotalAnswered =>
      case MarkPlusOne =>
      case MarkPlusTwo =>
      case MarkMinusOneThird =>
      case MarkMinusTwoThirds =>
      case MarkZero =>
    }
  }

  function Abs(x: int): nat
  {
    if x < 0 then -x else x
  }

  /** `f"{count * (-each/3):.2f}"`: the product of a count and a negative
      float carries the sign bit whenever the count is not negative, zero
      included, so the text starts with a minus sign from the first display
      on. */
  function PenaltyText(count: int, each: nat): string
  {
    FormatFixed(count >= 0, Abs(count) * each)
  }

  /** The text `update_display` writes into field `f` for the tally `s`. */
  function Text(s: State, f: Field): string
  {
    match f
    case TotalMarks => FormatFixed(s.marksThirds < 0, Abs(s.marksThirds))
    case CorrectAnswers => IntToDecimal(Count(s, CorrectCount))
    case IncorrectAnswers => IntToDecimal(Count(s, IncorrectCount))
    case TotalAnswered => IntToDecimal(Count(s, TotalQuestions))
    case MarkPlusOne => IntToDecimal(Count(s, Clicks(PlusOne)) * 1)
    case MarkPlusTwo => IntToDecimal(Count(s, Clicks(PlusTwo)) * 2)
    case MarkMinusOneThird => PenaltyText(Count(s, Clicks(MinusOneThird)), 1)
    case MarkMinusTwoThirds => PenaltyText(Count(s, Clicks(MinusTwoThirds)), 2)
    case MarkZero => "0 x " + IntToDecimal(Count(s, Clicks(Zero)))
  }

  /** The window: the tally and the text each field currently shows. */
  datatype App = App(tally: State, shown: map<Field, string>)

  /** Every field shows the text the tally calls for. */
  predicate Synced(a: App)
  {
    forall f :: f in a.shown && a.shown[f] == Text(a.tally, f)
  }

  /** `update_display`: rewrites every field from the tally and changes no
      part of the tally. */
  function UpdateDisplay(a: App): (r: App)
    ensures r.tally == a.tally
    ensures Synced(r)
  {
    AllFieldsListed();
    a.(shown := map f | f in AllFields :: Text(a.tally, f))
  }

  /** Refreshing a second time changes nothing. */
  lemma UpdateDisplayIdempotent(a: App)
    ensures UpdateDisplay(UpdateDisplay(a)) == UpdateDisplay(a)
  {
  }

  /** A window needs no refresh exactly when it is in sync with its tally. */
  lemma SyncedIffUpdateIsIdentity(a: App)
    ensures Synced(a) <==> UpdateDisplay(a) == a
  {
    if Synced(a) {
      var r := UpdateDisplay(a);
      assert a.shown.Keys == r.shown.Keys by {
        forall f ensures f in a.shown <==> f in r.shown {
        }
      }
      assert a.shown == r.shown;
    }
  }

  /** The constructor: the counters start at zero and `update_display` runs
      once, whatever texts the window's layout file put in the fields. */
  function Launch(layoutTexts: map<Field, string>): (a: App)
    ensures a.tally == Init() && Synced(a)
  {
    UpdateDisplay(App(Init(), layoutTexts))
  }

  /** A button click: its handler updates the tally, then calls
      `update_display`. */
  function Click(a: App, e: Event): (r: App)
    ensures r.tally == Step(a.tally, e)
    ensures Synced(r)
  {
    UpdateDisplay(a.(tally := Step(a.tally, e)))
  }

  /** Two windows in sync with the same tally are the same window: the
      texts shown are a function of the tally alone. */
  lemma SyncedDeterminedByTally(a: App, b: App)
    requires Synced(a) && Synced(b) && a.tally == b.tally
    ensures a == b
  {
    assert a.shown.Keys == b.shown.Keys by {
      forall f ensures f in a.shown <==> f in b.shown {
        assert f in a.shown && f in b.shown;
      }
    }
    assert a.shown == b.shown;
  }

  /** The clicks `es`, one at a time, on the window `a`: every click runs its
      handler and then `update_display`. */
  function ClickInTurn(a: App, es: seq<Event>): (r: App)
    ensures r.tally == RunFrom(a.tally, es)
    ensures es != [] ==> Synced(r)
  {
    if es == [] then a else Click(ClickInTurn(a, es[..|es| - 1]), es[|es| - 1])
  }

  /** The clicks `es` on the window `a`, as one refresh after all the
      handlers have run. */
  function ClickAll(a: App, es: seq<Event>): (r: App)
    ensures r.tally == RunFrom(a.tally, es)
    ensures es != [] ==> Synced(r)
  {
    if es == [] then a else UpdateDisplay(a.(tally := RunFrom(a.tally, es)))
  }

  /** Each click's refresh is overwritten by the next one: clicking one at a
      time leaves the window exactly as running every handler and refreshing
      once. */
  lemma ClickInTurnIsClickAll(a: App, es: seq<Event>)
    ensures ClickInTurn(a, es) == ClickAll(a, es)
  {
    if es != [] {
      SyncedDeterminedByTally(ClickInTurn(a, es), ClickAll(a, es));
    }
  }

  /** Clicking `xs` and then `ys` is clicking `xs + ys`. */
  lemma ClickAllAppend(a: App, xs: seq<Event>, ys: seq<Event>)
    ensures ClickAll(ClickAll(a, xs), ys) == ClickAll(a, xs + ys)
  {
    if xs == [] {
      assert xs + ys == ys;
    } else if ys == [] {
      assert xs + ys == xs;
    } else {
      RunFromAppend(a.tally, xs, ys);
      SyncedDeterminedByTally(ClickAll(ClickAll(a, xs), ys), ClickAll(a, xs + ys));
    }
  }

  /** After any clicks since launch, the window shows exactly what the tally
      of those clicks calls for, whatever the layout file held. */
  lemma SessionShowsRun(layoutTexts: map<Field, string>, es: seq<Event>)
    ensures ClickAll(Launch(layoutTexts), es).tally == Run(es)
    ensures Synced(ClickAll(Launch(layoutTexts), es))
    ensures ClickInTurn(Launch(layoutTexts), es).tally == Run(es)
    ensures Synced(ClickInTurn(Launch(layoutTexts), es))
  {
    ClickInTurnIsClickAll(Launch(layoutTexts), es);
  }

  /** The total field shows a minus sign exactly when the total is negative. */
  lemma TotalSign(s: State)
    ensures Text(s, TotalMarks)[0] == '-' <==> s.marksThirds < 0
  {
  }

  /** The total field reads back as the total rounded to hundredths. */
  lemma TotalMeaning(s: State)
    ensures ParseFixed(Text(s, TotalMarks))
            == Some(Fixed(s.marksThirds < 0, Hundredths(Abs(s.marksThirds))))
  {
    FormatFixedParses(s.marksThirds < 0, Abs(s.marksThirds));
  }

  /** Two tallies with the same total text have the same exact total. */
  lemma TotalDetermined(s: State, t: State)
    requires Text(s, TotalMarks) == Text(t, TotalMarks)
    ensures s.marksThirds == t.marksThirds
  {
    FormatFixedInjective(s.marksThirds < 0, Abs(s.marksThirds), t.marksThirds < 0, Abs(t.marksThirds));
  }

  /** The three counter fields read back as the counters. */
  lemma CounterFieldsMeaning(s: State)
    ensures ParseInt(Text(s, CorrectAnswers)) == Some(Count(s, CorrectCount))
    ensures ParseInt(Text(s, IncorrectAnswers)) == Some(Count(s, IncorrectCount))
    ensures ParseInt(Text(s, TotalAnswered)) == Some(Count(s, TotalQuestions))
  {
    assert Text(s, CorrectAnswers) == IntToDecimal(Count(s, CorrectCount));
    assert Text(s, IncorrectAnswers) == IntToDecimal(Count(s, IncorrectCount));
    assert Text(s, TotalAnswered) == IntToDecimal(Count(s, TotalQuestions));
    IntRoundTrip(Count(s, CorrectCount));
    IntRoundTrip(Count(s, IncorrectCount));
    IntRoundTrip(Count(s, TotalQuestions));
  }

  /** The +1 and +2 fields read back as the marks those buttons earned: one
      and two per click. */
  lemma EarnedFieldsMeaning(s: State)
    ensures ParseInt(Text(s, MarkPlusOne)) == Some(Count(s, Clicks(PlusOne)))
    ensures ParseInt(Text(s, MarkPlusTwo)) == Some(2 * Count(s, Clicks(PlusTwo)))
  {
    assert Text(s, MarkPlusOne) == IntToDecimal(Count(s, Clicks(PlusOne)));
    assert Text(s, MarkPlusTwo) == IntToDecimal(Count(s, Clicks(PlusTwo)) * 2);
    IntRoundTrip(Count(s, Clicks(PlusOne)));
    IntRoundTrip(Count(s, Clicks(PlusTwo)) * 2);
  }

  /** The zero field reads "0 x " followed by the number of zero clicks. */
  lemma ZeroFieldMeaning(s: State)
    ensures |Text(s, MarkZero)| > 4 && Text(s, MarkZero)[..4] == "0 x "
    ensures ParseInt(Text(s, MarkZero)[4..]) == Some(Count(s, Clicks(Zero)))
  {
    var n := IntToDecimal(Count(s, Clicks(Zero)));
    assert Text(s, MarkZero)[4..] == n;
    IntRoundTrip(Count(s, Clicks(Zero)));
  }

  /** The -1/3 field reads back as the marks lost to that button, rounded to
      hundredths, with the sign of the float product: negative unless the
      count itself is negative. */
  lemma OneThirdFieldMeaning(s: State)
    ensures var n := Count(s, Clicks(MinusOneThird));
      ParseFixed(Text(s, MarkMinusOneThird)) == Some(Fixed(n >= 0, Hundredths(Abs(n))))
  {
    var n := Count(s, Clicks(MinusOneThird));
    assert Text(s, MarkMinusOneThird) == FormatFixed(n >= 0, Abs(n));
    FormatFixedParses(n >= 0, Abs(n));
  }

  /** The -2/3 field, likewise, at two thirds of a mark per click. */
  lemma TwoThirdsFieldMeaning(s: State)
    ensures var n := Count(s, Clicks(MinusTwoThirds));
      ParseFixed(Text(s, MarkMinusTwoThirds)) == Some(Fixed(n >= 0, Hundredths(2 * Abs(n))))
  {
    var n := Count(s, Clicks(MinusTwoThirds));
    assert Text(s, MarkMinusTwoThirds) == FormatFixed(n >= 0, 2 * Abs(n));
    FormatFixedParses(n >= 0, 2 * Abs(n));
  }

  /** In every state reached from startup both penalty fields start with a
      minus sign, "-0.00" included. */
  lemma PenaltyFieldsAlwaysNegative(s: State)
    requires Tidy(s)
    ensures Text(s, MarkMinusOneThird)[0] == '-'
    ensures Text(s, MarkMinusTwoThirds)[0] == '-'
  {
    TidyCountsNonNegative(s, Clicks(MinusOneThird));
    TidyCountsNonNegative(s, Clicks(MinusTwoThirds));
  }
}
