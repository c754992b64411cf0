/**
 * How the three parts meet: the editor stores attributes, the server
 * renders them into a block element, the script grades a click on that
 * element and reports the attempt back to the server.
 *
 * The render callback labels each button with the option's index in the
 * stored list (`data-option-index`) and writes the stored correct index into
 * `data-correct-answer`; the script ignores `data-option-index` and compares
 * the button's POSITION among the rendered buttons with that index. The two
 * numberings agree only while no option before the correct one was skipped
 * as empty. This module states the mismatch on the render callback as
 * written and proves grading right for a corrected callback that writes the
 * position of the correct option's button instead.
 */
module Joint {
  import opened Optional
  import opened Tiers
  import opened Frontend
  import opened Render
  import Editor

  /** wp_json_encode of the two configuration records, as the element's attributes carry them. */
  datatype Encoders = Encoders(messages: Messages -> string, ranges: Ranges -> string)

  /**
   * What initTriviaBlock reads from a rendered block: its id, parseInt of
   * `data-correct-answer` (the decimal PHP echoed), the number of
   * `.trivia-block__option` buttons, and the two JSON attributes.
   */
  function ToElement(m: Markup, enc: Encoders): (el: BlockElement)
    ensures el.blockId == m.blockId && el.correctAnswer == m.correctAnswer
    ensures el.optionCount == |m.buttons|
    ensures el.messagesAttr.Some? && el.rangesAttr.Some?
  {
    BlockElement(m.blockId, m.correctAnswer, |m.buttons|,
                 Some(enc.messages(m.resultMessages)), Some(enc.ranges(m.scoreRanges)))
  }

  /** The script's verdict on the button at position `k`: `selectedIndex === correctAnswer`. */
  predicate JudgedCorrect(m: Markup, k: nat) {
    k == m.correctAnswer
  }

  /** The verdict a first click reports is the one JudgedCorrect gives. */
  lemma ClickReportsJudgement(s: Session, m: Markup, enc: Encoders, k: nat, marks: seq<OptionMark>)
    requires m.blockId !in s.answeredQuestions
    ensures var sel := HandleAnswerSelection(s, ToElement(m, enc), k, marks);
            && sel.attempt == Some(Attempt(m.blockId, k, JudgedCorrect(m, k)))
            && sel.session.correctAnswers == s.correctAnswers + (if JudgedCorrect(m, k) then 1 else 0)
  {
  }

  // ---------------------------------------------------------------------
  // Button positions against option indexes
  // ---------------------------------------------------------------------

  /** Buttons sit at or before their option's index: earlier buttons have strictly smaller indexes. */
  lemma {:induction false} PositionAtMostIndex(options: seq<string>, p: nat)
    requires p < |Buttons(options)|
    ensures p <= Buttons(options)[p].optionIndex
    decreases p
  {
    if p > 0 {
      PositionAtMostIndex(options, p - 1);
    }
  }

  /** Between two buttons the option index grows at least as fast as the position. */
  lemma {:induction false} IndexGap(options: seq<string>, t: nat, p: nat)
    requires t <= p < |Buttons(options)|
    ensures Buttons(options)[p].optionIndex - Buttons(options)[t].optionIndex >= p - t
    decreases p - t
  {
    if t < p {
      IndexGap(options, t + 1, p);
    }
  }

  /** When the options before `c` are all non-empty, option j < c has its button at position j. */
  lemma {:induction false} LeadingButtonsInPlace(options: seq<string>, c: nat, j: nat)
    requires c <= |options| && j < c
    requires forall i :: 0 <= i < c ==> !PhpEmpty(options[i])
    ensures j < |Buttons(options)| && Buttons(options)[j].optionIndex == j
    decreases j
  {
    var b := Buttons(options);
    assert HasButtonFor(b, j);
    var p :| 0 <= p < |b| && b[p].optionIndex == j;
    PositionAtMostIndex(options, p);
    if j > 0 {
      LeadingButtonsInPlace(options, c, j - 1);
    }
    assert p == j;
  }

  /**
   * The button showing option `c` sits at position `c` exactly when no
   * option before `c` is empty; otherwise it sits earlier.
   */
  lemma ButtonPosition(options: seq<string>, c: nat, p: nat)
    requires p < |Buttons(options)| && Buttons(options)[p].optionIndex == c
    ensures p <= c
    ensures p == c <==> forall j :: 0 <= j < c ==> !PhpEmpty(options[j])
  {
    var b := Buttons(options);
    PositionAtMostIndex(options, p);
    if p == c {
      forall j | 0 <= j < c ensures !PhpEmpty(options[j]) {
        IndexGap(options, j, p);
        PositionAtMostIndex(options, j);
        assert b[j].optionIndex == j;
      }
    }
    if forall j :: 0 <= j < c ==> !PhpEmpty(options[j]) {
      if c > 0 {
        LeadingButtonsInPlace(options, c, c - 1);
      }
    }
  }

  // ---------------------------------------------------------------------
  // Grading with the render callback as written
  // ---------------------------------------------------------------------

  /** The sanitized options and correct index render_block works from. */
  function RenderedOptions(a: BlockAttributes, wp: WordPress): seq<string> {
    SanitizeAll(WithDefaults(a, wp.uniqueId).options, wp)
  }

  function StoredCorrect(a: BlockAttributes, wp: WordPress): int {
    IntVal(WithDefaults(a, wp.uniqueId).correctAnswer)
  }

  /**
   * With no empty option up to and including the correct one, the script
   * judges a button correct exactly when it shows the option the author
   * marked correct.
   */
  lemma GradingAgreesWithoutEarlierEmpty(a: BlockAttributes, wp: WordPress, k: nat)
    requires RenderBlock(a, wp).Html? && k < |RenderBlock(a, wp).markup.buttons|
    requires forall j :: 0 <= j <= StoredCorrect(a, wp) && j < |RenderedOptions(a, wp)| ==> !PhpEmpty(RenderedOptions(a, wp)[j])
    ensures var m := RenderBlock(a, wp).markup;
            JudgedCorrect(m, k) <==> m.buttons[k].optionIndex == StoredCorrect(a, wp)
  {
    var m := RenderBlock(a, wp).markup;
    var options := RenderedOptions(a, wp);
    var c := StoredCorrect(a, wp);
    PositionAtMostIndex(options, k);
    if m.buttons[k].optionIndex == c {
      ButtonPosition(options, c, k);
    }
    if k == c {
      LeadingButtonsInPlace(options, c + 1, c);
    }
  }

  /** In particular every block whose options are all non-empty is graded as intended. */
  lemma GradingAgreesWithoutEmptyOptions(a: BlockAttributes, wp: WordPress, k: nat)
    requires RenderBlock(a, wp).Html? && k < |RenderBlock(a, wp).markup.buttons|
    requires forall j :: 0 <= j < |RenderedOptions(a, wp)| ==> !PhpEmpty(RenderedOptions(a, wp)[j])
    ensures var m := RenderBlock(a, wp).markup;
            JudgedCorrect(m, k) <==> m.buttons[k].optionIndex == StoredCorrect(a, wp)
  {
    var options := RenderedOptions(a, wp);
    ButtonsWithoutEmpty(options, 0);
  }

  /**
   * An empty option before the correct one shifts the buttons: the button
   * that shows the correct option is judged wrong.
   */
  lemma CorrectButtonJudgedWrong(a: BlockAttributes, wp: WordPress, k: nat, j: nat)
    requires RenderBlock(a, wp).Html? && k < |RenderBlock(a, wp).markup.buttons|
    requires RenderBlock(a, wp).markup.buttons[k].optionIndex == StoredCorrect(a, wp)
    requires j < StoredCorrect(a, wp) && PhpEmpty(RenderedOptions(a, wp)[j])
    ensures !JudgedCorrect(RenderBlock(a, wp).markup, k)
  {
    ButtonPosition(RenderedOptions(a, wp), StoredCorrect(a, wp), k);
  }

  /** "Rome", an option left blank, then "Paris", with "Paris" (index 2) marked correct. */
  const ExampleAttributes := BlockAttributes(
    Some("Capital of France?"), Some(["Rome", "", "Paris"]), Some(PInt(2)), None, Some("q1"), None, None)

  /** WordPress with sanitizers that leave these plain strings alone. */
  const PlainWordPress := WordPress(s => s, s => s, "trivia_1")

  /**
   * The blank option is skipped, so "Paris" is the second button and
   * `data-correct-answer` is 2: no button sits at position 2, so no answer
   * can be judged correct, and clicking "Paris" is judged wrong.
   */
  lemma AsWrittenExample()
    ensures RenderBlock(ExampleAttributes, PlainWordPress).Html?
    ensures var m := RenderBlock(ExampleAttributes, PlainWordPress).markup;
            && m.buttons == [Button(0, "Rome"), Button(2, "Paris")]
            && m.correctAnswer == 2
            && !JudgedCorrect(m, 1)
            && forall k :: 0 <= k < |m.buttons| ==> !JudgedCorrect(m, k)
  {
    var options := ["Rome", "", "Paris"];
    assert RenderedOptions(ExampleAttributes, PlainWordPress) == options;
    assert ButtonsFrom(options, 3) == [];
    assert ButtonsFrom(options, 2) == [Button(2, "Paris")];
    assert ButtonsFrom(options, 1) == [Button(2, "Paris")];
    assert ButtonsFrom(options, 0) == [Button(0, "Rome"), Button(2, "Paris")];
    assert !PhpEmpty(options[0]);
  }

  // ---------------------------------------------------------------------
  // The corrected render callback
  // ---------------------------------------------------------------------

  /** The position of the button showing option `index`, or -1 when no button does. */
  function PositionOf(b: seq<Button>, index: int): (r: int)
    ensures -1 <= r < |b|
    ensures r >= 0 ==> b[r].optionIndex == index
    ensures r == -1 <==> forall k :: 0 <= k < |b| ==> b[k].optionIndex != index
  {
    if |b| == 0 then -1
    else if b[|b| - 1].optionIndex == index then |b| - 1
    else PositionOf(b[..|b| - 1], index)
  }

  /**
   * render_block with `data-correct-answer` written as the position of the
   * correct option's button (or -1 when that option was skipped); every other
   * decision is the callback's own.
   */
  function RenderBlockCorrected(a: BlockAttributes, wp: WordPress): (out: Output)
    ensures out.Nothing? <==> RenderBlock(a, wp).Nothing?
    ensures out.Html? ==>
              && out.markup.(correctAnswer := 0) == RenderBlock(a, wp).markup.(correctAnswer := 0)
              && forall k :: 0 <= k < |out.markup.buttons| ==>
                   (JudgedCorrect(out.markup, k) <==> out.markup.buttons[k].optionIndex == StoredCorrect(a, wp))
  {
    match RenderBlock(a, wp)
    case Nothing => Nothing
    case Html(m) =>
      var position := PositionOf(m.buttons, m.correctAnswer);
      UniqueIndexes(m.buttons, RenderedOptions(a, wp));
      Html(m.(correctAnswer := position))
  }

  /** Rendered buttons carry distinct option indexes. */
  lemma UniqueIndexes(b: seq<Button>, options: seq<string>)
    requires b == Buttons(options)
    ensures forall k, l :: 0 <= k < |b| && 0 <= l < |b| && b[k].optionIndex == b[l].optionIndex ==> k == l
  {
  }

  /** The corrected callback grades the example as intended: "Paris" and only "Paris". */
  lemma CorrectedExample()
    ensures RenderBlockCorrected(ExampleAttributes, PlainWordPress).Html?
    ensures var m := RenderBlockCorrected(ExampleAttributes, PlainWordPress).markup;
            && m.correctAnswer == 1
            && JudgedCorrect(m, 1) && !JudgedCorrect(m, 0)
  {
    AsWrittenExample();
  }

  // ---------------------------------------------------------------------
  // From the editor to the server log
  // ---------------------------------------------------------------------

  /** The attributes the editor saves, as the render callback receives them. */
  function ToStored(a: Editor.Attributes): (r: BlockAttributes)
    ensures r.question == Some(a.question) && r.options == Some(a.options)
    ensures r.correctAnswer.Some? && IntVal(r.correctAnswer.value) == a.correctAnswer
    ensures r.blockId == Some(a.blockId)
  {
    BlockAttributes(Some(a.question), Some(a.options), Some(PInt(a.correctAnswer)),
                    Some(a.answerJustification), Some(a.blockId), Some(a.resultMessages), Some(a.scoreRanges))
  }

  /**
   * The option an author picks with setCorrectAnswer is the one a reader is
   * credited for: on the corrected render, the first click on button k is
   * judged correct exactly when that button shows the picked option, and
   * the attempt the script reports, sent through the corrected route, is
   * echoed back by log_attempt when the nonce verifies and refused with a
   * 403 otherwise.
   */
  lemma PickedOptionIsCredited(a: Editor.Attributes, i: nat, wp: WordPress, enc: Encoders,
                               s: Session, k: nat, marks: seq<OptionMark>,
                               nonce: Option<string>, verifyNonce: Option<string> -> bool, now: string)
    requires RenderBlockCorrected(ToStored(Editor.SetCorrectAnswer(a, i)), wp).Html?
    requires k < |RenderBlockCorrected(ToStored(Editor.SetCorrectAnswer(a, i)), wp).markup.buttons|
    requires a.blockId !in s.answeredQuestions
    ensures var m := RenderBlockCorrected(ToStored(Editor.SetCorrectAnswer(a, i)), wp).markup;
            var sel := HandleAnswerSelection(s, ToElement(m, enc), k, marks);
            && sel.attempt.Some?
            && (sel.attempt.value.isCorrect <==> m.buttons[k].optionIndex == i)
            && (m.buttons[k].optionIndex == i ==>
                  i < |a.options| && m.buttons[k].text == wp.sanitizeTextField(a.options[i]))
            && var req := RouteRequestCorrected(nonce, sel.attempt.value.blockId, PInt(sel.attempt.value.selectedOption),
                                                sel.attempt.value.isCorrect, wp).req;
               var resp := LogAttempt(req, verifyNonce, now);
               && (verifyNonce(nonce) ==>
                     resp == Logged(true, "Attempt logged successfully", wp.sanitizeTextField(a.blockId), PInt(k),
                                    sel.attempt.value.isCorrect, now))
               && (!verifyNonce(nonce) ==> resp.WpError? && resp.status == 403)
  {
    var stored := ToStored(Editor.SetCorrectAnswer(a, i));
    var m := RenderBlockCorrected(stored, wp).markup;
    assert StoredCorrect(stored, wp) == i;
    assert m.blockId == a.blockId;
  }
}
