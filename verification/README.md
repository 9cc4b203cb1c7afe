# MRKCalc score tally, in Dafny

MRKCalc is a small desktop calculator for marking multiple-choice answer
sheets. The examiner clicks one of five buttons per question: +1, +2, -1/3,
-2/3 or 0 marks. `CalculatorApp` in `main.py` keeps nine state variables: the running total
of marks and eight counters:

- `correct_count` and `incorrect_count`
- `total_questions`
- one click counter for each of the five buttons

After every click `update_display` rewrites nine read-only text fields from
those values.

This project models that core as pure functions over immutable data.

- `tally.dfy` (module `Tally`) holds the state, the five button handlers, the
  dispatch of a click to its handler, and runs of clicks.
  - Marks are held exactly, as an integer number of thirds of a mark. The
    weights are 3, 6, -1, -2 and 0.
  - The counters live in a map in which a missing counter reads 0.
  - `Consistent` states the relations the handlers maintain:
    - total = correct + incorrect + zero clicks
    - correct = +1 clicks + +2 clicks
    - incorrect = -1/3 clicks + -2/3 clicks
    - the total marks equal 1·(+1) + 2·(+2) − ⅓·(−1/3) − ⅔·(−2/3) clicks
- `decimal.dfy` (module `Decimal`) holds the two text formats `update_display`
  uses:
  - Python's `str` of an integer
  - the `.2f` format of a number of thirds, rounded to the nearest hundredth (a
    third never lands on a tie)

  It also holds a parser for each format, and the round-trip lemmas that say
  what the texts mean.
- `display.dfy` (module `Display`) holds the window: the tally plus the text
  each field shows. It defines:
  - `update_display`
  - the constructor (`Launch`)
  - a click (the handler, then `update_display`)
  - sequences of clicks
  - the meaning of every field's text
- `scenarios.dfy` (module `Scenarios`) restates the unit tests of
  `test_logic.py` as lemmas:
  - the fixture's `setUp` reset
  - the five single-click tests
  - the mixed sequence of 5 × +1, 8 × +2 and 3 × 0 clicks

  Each test is stated for every window whose tally is all zeros, which is what
  `setUp` leaves behind.

The penalty fields format `count * (-1/3)` and `count * (-2/3)` as Python
floats. The product of 0 and a negative float is `-0.0`, so these fields show
"-0.00" before the first penalty click, startup included. The model
reproduces this: the sign of a penalty text is "count is not negative"
(`Display.PenaltyText`), and `Scenarios.ZeroedDisplay` states the "-0.00".

The code accumulates `total_marks` as a binary float. The model keeps the
total exact, as a whole number of thirds. The drift this causes is listed
under "## Left out".

## Model

| member | source | states |
|---|---|---|
| Tally.Init | main.py:61-71 | the starting state has no marks and every counter at zero |
| Tally.ZeroedConsistent | main.py:61-71 | an all-zero tally already satisfies every relation between the counters and the total |
| Tally.Bump | main.py:126-128 | a `+= 1` raises exactly that counter by one and changes no other counter and not the total |
| Tally.AddOneMark | main.py:124-128 | `add_1_mark`: one more question, one more +1 click, other buttons' clicks unchanged, correct up by one, incorrect unchanged, total up by one mark |
| Tally.AddTwoMarks | main.py:131-135 | `add_2_marks`: the same, with a +2 click and two marks |
| Tally.SubOneThirdMark | main.py:138-142 | `sub_1_3_mark`: one more question, one more -1/3 click, incorrect up by one, correct unchanged, total down by a third |
| Tally.SubTwoThirdsMark | main.py:145-149 | `sub_2_3_mark`: the same, with a -2/3 click and two thirds off |
| Tally.AddZeroMark | main.py:152-156 | `add_0_mark`: one more question and zero click; neither the total nor the correct or incorrect counter changes |
| Tally.Step | main.py:103-107 | a button click runs its handler: exactly one per-button counter and the question count go up, the right kind's counter goes up, no counter decreases, the total moves by the button's worth, and the counter relations are preserved |
| Tally.ClickKeepsInvariants | main.py:124-157 | any change that counts one click with its kind and worth lowers no counter and preserves total = correct + incorrect + zero, correct = +1 + +2, incorrect = -1/3 + -2/3, and total marks = weighted clicks |
| Tally.RunFrom | main.py:124-157 | after a sequence of clicks, the question count grows by its length, each button's counter by how often it occurs, and the total by the sum of the clicks' worth (an independent definition); the relations are kept |
| Tally.Run | main.py:61-157 | every state reached from startup satisfies the counter relations and the weighted-sum total |
| Tally.RunCounts | main.py:61-157 | from startup, the question count is the number of clicks, each button counter is its number of occurrences, and the total is the sum of the clicks' worth |
| Tally.TidyCountsNonNegative | main.py:62-71 | a counter that only ever started at zero and went up is never negative |
| Tally.RunTidy | main.py:61-157 | every counter reached from startup has only gone up from zero |
| Tally.RunFromAppend | main.py:124-157 | clicking one sequence and then another is clicking their concatenation |
| Tally.RunFromNeverDecreases | main.py:124-157 | no sequence of clicks lowers any counter |
| Tally.RunNeverDecreases | main.py:124-157 | extending the clicks since startup never lowers a counter |
| Tally.ConsistentDeterminedByClicks | main.py:124-157 | a reachable state is determined by its five per-button counters |
| Tally.RunIgnoresOrder | main.py:124-157 | two click sequences with the same number of clicks of each button give the same state |
| Tally.RunsCommute | main.py:124-157 | two runs of clicks lead to the same state in either order |
| Tally.OccurrencesAppend | main.py:124-157 | the number of clicks of a button in a concatenation is the sum over the parts |
| Tally.OccurrencesUniform | test_logic.py:71-82 | in a run of clicks of a single button, that button occurs once per click and no other button occurs |
| Tally.SumOfWeightsUniform | test_logic.py:71-82 | a run of clicks of a single button is worth the number of clicks times the button's worth |
| Tally.RunFromRepeated | test_logic.py:71-82 | clicking one button n times adds n to its counter and n times its worth to the total, and leaves every other button's counter alone |
| Decimal.NatToDecimal | main.py:162-164 | `str` of a natural number is a digit string without a superfluous leading zero, and it denotes that number |
| Decimal.CanonicalRoundTrip | main.py:162-164 | every digit string without a superfluous leading zero is `str` of the number it denotes, so the two are inverse bijections |
| Decimal.IntToDecimal | main.py:162-164 | `str` of an integer is non-empty and starts with a minus sign exactly when the integer is negative |
| Decimal.IntRoundTrip | main.py:162-164 | `str` of an integer reads back as that integer |
| Decimal.ParsedIntIsCanonical | main.py:162-164 | only `str` of an integer reads back as that integer |
| Decimal.Hundredths | main.py:161 | `.2f` rounds a number of thirds to a whole number of hundredths within a third of a hundredth of it |
| Decimal.HundredthsIsNearest | main.py:161 | that rounding is the only number of hundredths that close, so there are no ties |
| Decimal.HundredthsDetermineThirds | main.py:161 | the rounded hundredths still determine the exact number of thirds |
| Decimal.FormatFixed | main.py:161 | the `.2f` text has its point third from the end, and a leading minus exactly for a negative sign |
| Decimal.FormatFixedDigits | main.py:161 | the two characters after the point are digits |
| Display.Text | main.py:161-177 | the text each `setText` call writes: `.2f` of the total, `str` of the three counters, `str` of count·1 and count·2, the `.2f` penalty products with the sign of Python's float product, and "0 x " with the zero-click count |
| Decimal.FormatFixedParses | main.py:161 | the `.2f` text of a number of thirds reads back as its sign and its rounded hundredths |
| Decimal.FormatFixedInjective | main.py:161 | two `.2f` texts of numbers of thirds are equal exactly when the signs and the numbers of thirds are |
| Display.UpdateDisplay | main.py:159-177 | `update_display` sets every field to the text the tally calls for and leaves the tally alone |
| Display.UpdateDisplayIdempotent | main.py:159-177 | refreshing twice is refreshing once |
| Display.SyncedIffUpdateIsIdentity | main.py:159-177 | a window needs no refresh exactly when every field already shows its tally's text |
| Display.SyncedDeterminedByTally | main.py:159-177 | two refreshed windows with the same tally show the same texts |
| Display.Launch | main.py:61-122 | the constructor zeroes the tally and refreshes every field, whatever the layout file put in them |
| Display.Click | main.py:124-157 | a click runs the handler and then refreshes the display from the new tally |
| Display.ClickInTurn | main.py:124-157 | after a sequence of clicks, each one refreshing, the tally is the run of those clicks and the display matches it |
| Display.ClickAll | main.py:124-157 | the same end window, described as the run of all the handlers followed by one refresh |
| Display.ClickInTurnIsClickAll | main.py:159-177 | since every refresh overwrites all nine fields, clicking one at a time ends in exactly the window of one final refresh |
| Display.ClickAllAppend | main.py:124-157 | clicking one sequence and then another is clicking their concatenation |
| Display.SessionShowsRun | main.py:122-177 | after any clicks since launch, whether each click refreshes or one refresh follows them all, the tally is the run of those clicks and the window shows exactly the texts it calls for |
| Display.TotalSign | main.py:161 | the total field starts with a minus sign exactly when the total is negative |
| Display.TotalMeaning | main.py:161 | the total field reads back as the total rounded to hundredths, with its sign |
| Display.TotalDetermined | main.py:161 | two tallies whose total fields agree have the same exact total |
| Display.CounterFieldsMeaning | main.py:162-164 | the correct, incorrect and total-questions fields read back as those counters |
| Display.EarnedFieldsMeaning | main.py:168-169 | the +1 field reads back as the +1 clicks and the +2 field as twice the +2 clicks |
| Display.ZeroFieldMeaning | main.py:177 | the zero field is "0 x " followed by the number of zero clicks |
| Display.OneThirdFieldMeaning | main.py:173 | the -1/3 field reads back as a third of a mark per click, rounded to hundredths, negatively signed unless the count is negative |
| Display.TwoThirdsFieldMeaning | main.py:174 | the -2/3 field reads back as two thirds of a mark per click, rounded likewise and signed likewise |
| Display.PenaltyFieldsAlwaysNegative | main.py:173-174 | in every reachable state both penalty fields start with a minus sign, "-0.00" included |
| Scenarios.Reset | test_logic.py:13-26 | the fixture's reset zeroes the tally and refreshes the display |
| Scenarios.ZeroedDisplay | main.py:159-177 | a zeroed window shows "0.00" in the total, "0" in five fields (the three counters and the +1 and +2 fields), "-0.00" in both penalty fields, and "0 x 0" |
| Scenarios.StartupDisplay | test_logic.py:13-26 | the reset and the constructor both give a zeroed tally and the same texts |
| Scenarios.FirstStep | main.py:124-157 | one click on a zeroed tally gives that button's worth, one question, one click of it, and one correct or incorrect answer according to its kind |
| Scenarios.AddOneMarkTexts | test_logic.py:33-34 | after the first +1 click the total field shows "1.00" and the +1 field "1" |
| Scenarios.AddOneMarkTest | test_logic.py:28-34 | `test_add_1_mark`: total 1, one correct, one question, "1.00" and "1" |
| Scenarios.AddTwoMarksTexts | test_logic.py:41-42 | after the first +2 click the total field shows "2.00" and the +2 field "2" |
| Scenarios.AddTwoMarksTest | test_logic.py:36-42 | `test_add_2_marks`: total 2, one correct, one question, "2.00" and "2" |
| Scenarios.SubOneThirdMarkTexts | test_logic.py:49-50 | after the first -1/3 click both the total and the -1/3 field show "-0.33" |
| Scenarios.SubOneThirdMarkTest | test_logic.py:44-50 | `test_sub_1_3_mark`: total -1/3, one incorrect, one question, "-0.33" twice |
| Scenarios.SubTwoThirdsMarkTexts | test_logic.py:57-58 | after the first -2/3 click both the total and the -2/3 field show "-0.67" |
| Scenarios.SubTwoThirdsMarkTest | test_logic.py:52-58 | `test_sub_2_3_mark`: total -2/3, one incorrect, one question, "-0.67" twice |
| Scenarios.AddZeroMarkTexts | test_logic.py:66-67 | after the first zero click the total field shows "0.00" and the zero field "0 x 1" |
| Scenarios.AddZeroMarkTest | test_logic.py:60-67 | `test_add_0_mark`: total 0, no correct or incorrect answer, one question, "0.00" and "0 x 1" |
| Scenarios.MixedSequenceTally | test_logic.py:69-88 | after 5 × +1, 8 × +2 and 3 × 0 clicks on a zeroed tally the counters are 5, 8 and 3 and the total is 21 marks |
| Scenarios.MixedSequenceTexts | test_logic.py:74-88 | those counters show as "5", "16" and "0 x 3", and the total as "21.00" |
| Scenarios.MixedSequenceWindows | test_logic.py:69-88 | with each group of clicks taken as its handlers and one refresh, the window shows "5" after the +1 clicks, "16" after the +2 clicks, then "0 x 3" and "21.00" |
| Scenarios.MixedSequenceTest | test_logic.py:69-88 | `test_mixed_sequence`, clicking one button at a time with a refresh after every click: the window shows "5" after the +1 clicks, "16" after the +2 clicks, then "0 x 3" and "21.00" |

## Left out

- The Qt wiring (main.py:1-8, 49-58, 73-120, 179-183) is left out. This covers loading the `.ui` file, the read-only and alignment settings, the window title, the close button and the event loop. Only the mapping of the five buttons to their handlers is modelled, as `Tally.Step`.
- `get_resource_path` and `patch_ui_file` (main.py:10-46) are left out. They do file I/O on the layout file and do not touch the tally. The texts the layout file puts in the fields are a parameter of `Display.Launch`.
- Floating-point drift in `total_marks` is not modelled. The source adds `1.0`, `2.0`, `-(1/3)` and `-(2/3)` as binary floats. The model keeps the exact total as an integer number of thirds. Wherever the float sum strays from the exact one, the total field could differ from the model's text, in its last digit or in the sign of a zero total. No particular click sequence is claimed to show such a difference.
- Display.PenaltyText: does not model float rounding of the product `count * (-1/3)` itself. The products are computed exactly, and only the sign of a zero product follows the float rule. The exact product never sits on a rounding tie, so the float text can differ only where the float product's error crosses a rounding boundary.
- Integers are unbounded, as in Python, so the counters cannot overflow.
- `setUpClass` (test_logic.py:7-11) creates the application once. Every test starts from any window with a zeroed tally; `Scenarios.StartupDisplay` shows that `Display.Launch` gives one.
- The `assertAlmostEqual` checks on the total in test_logic.py:46 and test_logic.py:54 are stated as exact equalities (−1/3 and −2/3 of a mark). The exact total satisfies every tolerance.
