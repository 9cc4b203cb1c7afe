/**
  The score tally of the MRKCalc marking calculator: four aggregate values and
  five per-button click counters that five parameterless button events update.
  Marks are held exactly, as an integer number of thirds of a mark, instead of
  in binary floating point.
 */
module Tally {

  /** The five outcome buttons: +1, +2, -1/3, -2/3 and 0 marks. */
  datatype Event = PlusOne | PlusTwo | MinusOneThird | MinusTwoThirds | Zero

  /** Which aggregate counter an outcome belongs to. */
  datatype Kind = Correct | Incorrect | Neutral

  /** The calculator's integer counters: `correct_count`, `incorrect_count`,
      `total_questions`, and one click counter per button (`count_pos_1`,
      `count_pos_2`, `count_neg_1_3`, `count_neg_2_3`, `count_pos_0`). */
  datatype Counter = CorrectCount | IncorrectCount | TotalQuestions | Clicks(button: Event)

  /** The calculator's state. `marksThirds` is three times `total_marks`;
      `counts` holds the counters, every one of which reads 0 until it is
      first incremented. */
  datatype State = State(marksThirds: int, counts: map<Counter, int>)

  /** The mark an outcome is worth, in thirds of a mark. */
  function Weight(e: Event): int
  {
    match e
    case PlusOne => 3
    case PlusTwo => 6
    case MinusOneThird => -1
    case MinusTwoThirds => -2
    case Zero => 0
  }

  function KindOf(e: Event): Kind
  {
    match e
    case PlusOne | PlusTwo => Correct
    case MinusOneThird | MinusTwoThirds => Incorrect
    case Zero => Neutral
  }

  /** The current value of counter `c`. */
  function Count(s: State, c: Counter): int
  {
    if c in s.counts then s.counts[c] else 0
  }

  /** The counter map holds only counters that have been incremented: every
      stored count is positive. */
  predicate Tidy(s: State)
  {
    forall c | c in s.counts :: s.counts[c] > 0
  }

  /** `c += 1`: exactly one counter goes up by one, nothing else changes. */
  function Bump(s: State, c: Counter): (t: State)
    ensures Count(t, c) == Count(s, c) + 1
    ensures forall d :: d != c ==> Count(t, d) == Count(s, d)
    ensures t.marksThirds == s.marksThirds
    ensures Tidy(s) ==> Tidy(t)
  {
    s.(counts := s.counts[c := Count(s, c) + 1])
  }

  /** The marks the click counters account for, in thirds: 1 per +1 click,
      2 per +2 click, 1/3 and 2/3 off per penalty click, nothing per zero click. */
  function MarksFromClicks(s: State): int
  {
    3 * Count(s, Clicks(PlusOne)) + 6 * Count(s, Clicks(PlusTwo))
      - Count(s, Clicks(MinusOneThird)) - 2 * Count(s, Clicks(MinusTwoThirds))
  }

  /** The relations between the aggregate and the per-button counters, and
      the running total as a cache of the weighted click counts. */
  predicate Consistent(s: State)
  {
    && Count(s, TotalQuestions)
       == Count(s, CorrectCount) + Count(s, IncorrectCount) + Count(s, Clicks(Zero))
    && Count(s, CorrectCount) == Count(s, Clicks(PlusOne)) + Count(s, Clicks(PlusTwo))
    && Count(s, IncorrectCount)
       == Count(s, Clicks(MinusOneThird)) + Count(s, Clicks(MinusTwoThirds))
    && s.marksThirds == MarksFromClicks(s)
  }

  /** No counter of `t` is below the same counter of `s`. */
  ghost predicate NoneDecrease(s: State, t: State)
  {
    forall c :: Count(s, c) <= Count(t, c)
  }

  /** `t` is `s` after exactly one click of `e`: one more question, one more
      click of `e`, the same number of clicks of every other button. */
  predicate OneClick(s: State, t: State, e: Event)
  {
    && Count(t, TotalQuestions) == Count(s, TotalQuestions) + 1
    && Count(t, Clicks(e)) == Count(s, Clicks(e)) + 1
    && forall o :: o != e ==> Count(t, Clicks(o)) == Count(s, Clicks(o))
  }

  /** The effect on the correct and incorrect counters of one click of `e`:
      the counter of its kind goes up by one, the other one stays. */
  predicate CategoryStep(s: State, t: State, e: Event)
  {
    var correct := Count(t, CorrectCount) - Count(s, CorrectCount);
    var incorrect := Count(t, IncorrectCount) - Count(s, IncorrectCount);
    match KindOf(e)
    case Correct => correct == 1 && incorrect == 0
    case Incorrect => correct == 0 && incorrect == 1
    case Neutral => correct == 0 && incorrect == 0
  }

  /** No marks and every counter at 0. */
  ghost predicate Zeroed(s: State)
  {
    s.marksThirds == 0 && forall c :: Count(s, c) == 0
  }

  /** A zeroed tally satisfies every invariant. */
  lemma ZeroedConsistent(s: State)
    requires Zeroed(s)
    ensures Consistent(s)
  {
    assert Count(s, TotalQuestions) == 0 && Count(s, CorrectCount) == 0;
    assert Count(s, IncorrectCount) == 0;
    assert forall e :: Count(s, Clicks(e)) == 0;
  }

  /** The state the application starts in. */
  function Init(): (s: State)
    ensures Zeroed(s)
  {
    State(0, map[])
  }

  function AddOneMark(s: State): (t: State)
    ensures OneClick(s, t, PlusOne) && CategoryStep(s, t, PlusOne)
    ensures t.marksThirds == s.marksThirds + 3
    ensures Tidy(s) ==> Tidy(t)
  {
    var t := s.(marksThirds := s.marksThirds + 3);
    Bump(Bump(Bump(t, CorrectCount), TotalQuestions), Clicks(PlusOne))
  }

  function AddTwoMarks(s: State): (t: State)
    ensures OneClick(s, t, PlusTwo) && CategoryStep(s, t, PlusTwo)
    ensures t.marksThirds == s.marksThirds + 6
    ensures Tidy(s) ==> Tidy(t)
  {
    var t := s.(marksThirds := s.marksThirds + 6);
    Bump(Bump(Bump(t, CorrectCount), TotalQuestions), Clicks(PlusTwo))
  }

  function SubOneThirdMark(s: State): (t: State)
    ensures OneClick(s, t, MinusOneThird) && CategoryStep(s, t, MinusOneThird)
    ensures t.marksThirds == s.marksThirds - 1
    ensures Tidy(s) ==> Tidy(t)
  {
    var t := s.(marksThirds := s.marksThirds - 1);
    Bump(Bump(Bump(t, IncorrectCount), TotalQuestions), Clicks(MinusOneThird))
  }

  function SubTwoThirdsMark(s: State): (t: State)
    ensures OneClick(s, t, MinusTwoThirds) && CategoryStep(s, t, MinusTwoThirds)
    ensures t.marksThirds == s.marksThirds - 2
    ensures Tidy(s) ==> Tidy(t)
  {
    var t := s.(marksThirds := s.marksThirds - 2);
    Bump(Bump(Bump(t, IncorrectCount), TotalQuestions), Clicks(MinusTwoThirds))
  }

  /** The zero button adds nothing to the total (the source adds 0.0) and
      counts as neither correct nor incorrect. */
  function AddZeroMark(s: State): (t: State)
    ensures OneClick(s, t, Zero) && CategoryStep(s, t, Zero)
    ensures t.marksThirds == s.marksThirds
    ensures Tidy(s) ==> Tidy(t)
  {
    Bump(Bump(s, TotalQuestions), Clicks(Zero))
  }

  /** Dispatches a button event to its handler. */
  function Step(s: State, e: Event): (t: State)
    ensures OneClick(s, t, e) && CategoryStep(s, t, e)
    ensures NoneDecrease(s, t)
    ensures t.marksThirds == s.marksThirds + Weight(e)
    ensures Consistent(s) ==> Consistent(t)
    ensures Tidy(s) ==> Tidy(t)
  {
    var t := match e
      case PlusOne => AddOneMark(s)
      case PlusTwo => AddTwoMarks(s)
      case MinusOneThird => SubOneThirdMark(s)
      case MinusTwoThirds => SubTwoThirdsMark(s)
      case Zero => AddZeroMark(s);
    ClickKeepsInvariants(s, t, e);
    t
  }

  /** Any change that counts one click of `e` lowers no counter and keeps the
      invariants. */
  lemma ClickKeepsInvariants(s: State, t: State, e: Event)
    requires OneClick(s, t, e) && CategoryStep(s, t, e)
    requires t.marksThirds == s.marksThirds + Weight(e)
    ensures NoneDecrease(s, t)
    ensures Consistent(s) ==> Consistent(t)
  {
    forall c ensures Count(s, c) <= Count(t, c) {
      match c
      case Clicks(o) =>
      case _ =>
    }
    var o1, o2, n1, n2, z := Clicks(PlusOne), Clicks(PlusTwo), Clicks(MinusOneThird), Clicks(MinusTwoThirds), Clicks(Zero);
    assert Count(t, o1) + Count(t, o2) == Count(s, o1) + Count(s, o2) + (if KindOf(e) == Correct then 1 else 0);
    assert Count(t, n1) + Count(t, n2) == Count(s, n1) + Count(s, n2) + (if KindOf(e) == Incorrect then 1 else 0);
    assert Count(t, z) == Count(s, z) + (if e == Zero then 1 else 0);
    assert MarksFromClicks(t) == MarksFromClicks(s) + Weight(e);
  }

  /** How many of the clicks `es` are clicks of `e`. */
  function Occurrences(es: seq<Event>, e: Event): nat
  {
    if es == [] then 0
    else Occurrences(es[..|es| - 1], e) + (if es[|es| - 1] == e then 1 else 0)
  }

  /** Sum of the worth of each click, in thirds: a reference definition of the
      running total that does not look at the counters. */
  function SumOfWeights(es: seq<Event>): int
  {
    if es == [] then 0 else SumOfWeights(es[..|es| - 1]) + Weight(es[|es| - 1])
  }

  /** The state after the clicks `es`, in order, from `s`: every click is one
      more question, each button's counter grows by the number of times it was
      clicked, the total by the worth of the clicks, and the invariants are
      kept. */
  function RunFrom(s: State, es: seq<Event>): (t: State)
    ensures Count(t, TotalQuestions) == Count(s, TotalQuestions) + |es|
    ensures forall e :: Count(t, Clicks(e)) == Count(s, Clicks(e)) + Occurrences(es, e)
    ensures t.marksThirds == s.marksThirds + SumOfWeights(es)
    ensures Consistent(s) ==> Consistent(t)
  {
    if es == [] then s
    else
      var prefix, last := es[..|es| - 1], es[|es| - 1];
      var before := RunFrom(s, prefix);
      var after := Step(before, last);
      assert forall e :: Count(after, Clicks(e)) == Count(s, Clicks(e)) + Occurrences(es, e) by {
        forall e ensures Count(after, Clicks(e)) == Count(s, Clicks(e)) + Occurrences(es, e) {
          assert Occurrences(es, e) == Occurrences(prefix, e) + (if last == e then 1 else 0);
        }
      }
      after
  }

  /** The state after the clicks `es` from startup: the invariants hold, every
      click is one question, each button's counter is the number of times it
      was clicked, and the total is the worth of all the clicks. */
  function Run(es: seq<Event>): (s: State)
    ensures Consistent(s)
  {
    ZeroedConsistent(Init());
    RunFrom(Init(), es)
  }

  /** In a tidy state no counter is negative. */
  lemma TidyCountsNonNegative(s: State, c: Counter)
    requires Tidy(s)
    ensures Count(s, c) >= 0
  {
  }

  /** Every state reached from startup is tidy. */
  lemma {:induction false} RunTidy(es: seq<Event>)
    ensures Tidy(Run(es))
  {
    if es != [] {
      RunTidy(es[..|es| - 1]);
    }
  }

  /** Clicking `xs` and then `ys` is clicking `xs + ys`. */
  lemma {:induction false} RunFromAppend(s: State, xs: seq<Event>, ys: seq<Event>)
    ensures RunFrom(RunFrom(s, xs), ys) == RunFrom(s, xs + ys)
  {
    if ys == [] {
      assert xs + ys == xs;
    } else {
      var init := ys[..|ys| - 1];
      assert (xs + ys)[..|xs + ys| - 1] == xs + init;
      assert (xs + ys)[|xs + ys| - 1] == ys[|ys| - 1];
      RunFromAppend(s, xs, init);
    }
  }

  /** No sequence of clicks lowers a counter. */
  lemma {:induction false} RunFromNeverDecreases(s: State, es: seq<Event>)
    ensures NoneDecrease(s, RunFrom(s, es))
  {
    if es != [] {
      RunFromNeverDecreases(s, es[..|es| - 1]);
    }
  }

  /** Extending a click sequence never lowers a counter. */
  lemma RunNeverDecreases(es: seq<Event>, more: seq<Event>)
    ensures NoneDecrease(Run(es), Run(es + more))
  {
    RunFromAppend(Init(), es, more);
    RunFromNeverDecreases(Run(es), more);
  }

  /** From startup, every click is one question, each button's counter is
      the number of times it was clicked, and the total is the worth of all
      the clicks. */
  lemma RunCounts(es: seq<Event>)
    ensures Count(Run(es), TotalQuestions) == |es|
    ensures forall e :: Count(Run(es), Clicks(e)) == Occurrences(es, e)
    ensures Run(es).marksThirds == SumOfWeights(es)
  {
    var s0 := Init();
    assert Count(s0, TotalQuestions) == 0 && s0.marksThirds == 0;
    assert forall e :: Count(s0, Clicks(e)) == 0;
  }

  /** A consistent tidy state is determined by its five click counters. */
  lemma ConsistentDeterminedByClicks(s: State, t: State)
    requires Consistent(s) && Tidy(s) && Consistent(t) && Tidy(t)
    requires forall e :: Count(s, Clicks(e)) == Count(t, Clicks(e))
    ensures s == t
  {
    assert Count(s, Clicks(PlusOne)) == Count(t, Clicks(PlusOne));
    assert Count(s, Clicks(PlusTwo)) == Count(t, Clicks(PlusTwo));
    assert Count(s, Clicks(MinusOneThird)) == Count(t, Clicks(MinusOneThird));
    assert Count(s, Clicks(MinusTwoThirds)) == Count(t, Clicks(MinusTwoThirds));
    assert Count(s, Clicks(Zero)) == Count(t, Clicks(Zero));
    forall c ensures Count(s, c) == Count(t, c) {
      match c
      case Clicks(e) =>
      case _ =>
    }
    assert s.counts.Keys == t.counts.Keys by {
      forall c ensures c in s.counts <==> c in t.counts {
        assert Count(s, c) == Count(t, c);
      }
    }
    assert s.counts == t.counts by {
      forall c | c in s.counts ensures s.counts[c] == t.counts[c] {
        assert Count(s, c) == Count(t, c);
      }
    }
  }

  /** Only how often each button was clicked matters, not in which order. */
  lemma RunIgnoresOrder(es: seq<Event>, fs: seq<Event>)
    requires forall e :: Occurrences(es, e) == Occurrences(fs, e)
    ensures Run(es) == Run(fs)
  {
    RunTidy(es);
    RunTidy(fs);
    RunCounts(es);
    RunCounts(fs);
    ConsistentDeterminedByClicks(Run(es), Run(fs));
  }

  /** Counting clicks distributes over concatenation. */
  lemma {:induction false} OccurrencesAppend(xs: seq<Event>, ys: seq<Event>, e: Event)
    ensures Occurrences(xs + ys, e) == Occurrences(xs, e) + Occurrences(ys, e)
  {
    if ys == [] {
      assert xs + ys == xs;
    } else {
      var init := ys[..|ys| - 1];
      assert (xs + ys)[..|xs + ys| - 1] == xs + init;
      assert (xs + ys)[|xs + ys| - 1] == ys[|ys| - 1];
      OccurrencesAppend(xs, init, e);
    }
  }

  /** Two runs of clicks give the same state in either order. */
  lemma RunsCommute(xs: seq<Event>, ys: seq<Event>)
    ensures Run(xs + ys) == Run(ys + xs)
  {
    forall e ensures Occurrences(xs + ys, e) == Occurrences(ys + xs, e) {
      OccurrencesAppend(xs, ys, e);
      OccurrencesAppend(ys, xs, e);
    }
    RunIgnoresOrder(xs + ys, ys + xs);
  }

  /** Every click of `es` is a click of `e`. */
  predicate AllClicksOf(es: seq<Event>, e: Event)
  {
    forall i | 0 <= i < |es| :: es[i] == e
  }

  /** In clicks of a single button, that button occurs at every position and
      no other button occurs. */
  lemma {:induction false} OccurrencesUniform(es: seq<Event>, e: Event, o: Event)
    requires AllClicksOf(es, e)
    ensures Occurrences(es, o) == if o == e then |es| else 0
  {
    if es != [] {
      OccurrencesUniform(es[..|es| - 1], e, o);
    }
  }

  /** `t` is `s` after `n` clicks of `e`, as far as the click counters and the
      total go. */
  predicate Repeated(s: State, t: State, n: nat, e: Event)
  {
    && Count(t, Clicks(e)) == Count(s, Clicks(e)) + n
    && (forall o | o != e :: Count(t, Clicks(o)) == Count(s, Clicks(o)))
    && t.marksThirds == s.marksThirds + n * Weight(e)
  }

  /** Clicks of a single button are worth that button's worth per click. */
  lemma {:induction false} SumOfWeightsUniform(es: seq<Event>, e: Event)
    requires AllClicksOf(es, e)
    ensures SumOfWeights(es) == |es| * Weight(e)
  {
    if es != [] {
      SumOfWeightsUniform(es[..|es| - 1], e);
    }
  }

  /** Clicking the same button over and over adds the number of clicks to its
      counter and that many times its worth to the total, and leaves the other
      buttons' counters alone. */
  lemma RunFromRepeated(s: State, es: seq<Event>, e: Event)
    requires AllClicksOf(es, e)
    ensures Repeated(s, RunFrom(s, es), |es|, e)
  {
    forall o {
      OccurrencesUniform(es, e, o);
    }
    SumOfWeightsUniform(es, e);
  }
}
