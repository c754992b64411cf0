/**
 * The frontend scoring state machine: the page's single `triviaState`
 * record and the transitions the frontend script applies to it
 * (initialisation, loading the tier configuration, answering a question,
 * refreshing the score text, showing the final result, resetting).
 * Display updates are kept only as their logical content: the text of the
 * running counter, the final result, and the classes put on option buttons.
 */
module Frontend {
  import opened Optional
  import opened Tiers
  import Text

  /**
   * JSON.parse of the two configuration attributes, abstracted: `None`
   * stands for a parse that throws.
   */
  datatype Decoders = Decoders(messages: string -> Option<Messages>, ranges: string -> Option<Ranges>)

  /** What the script reads from one rendered `.trivia-block` element. */
  datatype BlockElement = BlockElement(
    blockId: string,                // data-block-id
    correctAnswer: int,             // parseInt(data-correct-answer)
    optionCount: nat,               // number of .trivia-block__option buttons
    messagesAttr: Option<string>,   // data-result-messages, None when the attribute is absent
    rangesAttr: Option<string>)     // data-score-ranges, None when the attribute is absent

  /** What the final-results step writes under the counter. */
  datatype FinalResult = FinalResult(percentage: nat, tier: Tier, message: string)

  /** The `.trivia-score` element: the running "c/t" text and, once complete, the final result. */
  datatype ScoreDisplay = ScoreDisplay(current: string, result: Option<FinalResult>)

  datatype Session = Session(
    totalQuestions: nat,
    correctAnswers: nat,
    answeredQuestions: set<string>,
    scoreElement: Option<ScoreDisplay>,
    resultMessages: Messages,
    scoreRanges: Ranges)

  /** The state of one option button: `disabled` and its three marking classes. */
  datatype OptionMark = OptionMark(disabled: bool, selected: bool, correct: bool, incorrect: bool)

  const Unmarked := OptionMark(false, false, false, false)

  /** The report handed to the attempt logger; nothing reads its outcome. */
  datatype Attempt = Attempt(blockId: string, selectedOption: nat, isCorrect: bool)

  /** Everything one call of the answer handler produces. */
  datatype Selection = Selection(
    session: Session,
    marks: seq<OptionMark>,
    attempt: Option<Attempt>,
    finalStep: bool)   // whether the final-results step was run

  /** The state the script starts with, and the state a reset restores before re-initialising. */
  const InitialSession := Session(0, 0, {}, None, DefaultMessages, DefaultRanges)

  /** The counter text `${correctAnswers}/${totalQuestions}`. */
  function ScoreText(correct: nat, total: nat): string {
    Text.Decimal(correct) + "/" + Text.Decimal(total)
  }

  /** Reads a counter text back: the digits before and after its one '/'. */
  function ReadScoreText(s: string): Option<(nat, nat)> {
    if exists k :: 0 <= k < |s| && s[k] == '/' && Text.AllDigits(s[..k]) && Text.AllDigits(s[k + 1..]) then
      var k :| 0 <= k < |s| && s[k] == '/' && Text.AllDigits(s[..k]) && Text.AllDigits(s[k + 1..]);
      Some((Text.DigitsValue(s[..k]), Text.DigitsValue(s[k + 1..])))
    else
      None
  }

  /** The counter text determines the score it shows. */
  lemma ScoreTextRoundTrip(correct: nat, total: nat)
    ensures ReadScoreText(ScoreText(correct, total)) == Some((correct, total))
  {
    Text.DecimalRoundTrip(correct);
    Text.DecimalRoundTrip(total);
    ReadDigitPair(Text.Decimal(correct), Text.Decimal(total));
  }

  /** Two digit runs around one '/' read back as their values. */
  lemma ReadDigitPair(c: string, t: string)
    requires Text.AllDigits(c) && Text.AllDigits(t)
    ensures ReadScoreText(c + "/" + t) == Some((Text.DigitsValue(c), Text.DigitsValue(t)))
  {
    var s := c + "/" + t;
    assert s[..|c|] == c && s[|c| + 1..] == t;
    forall k | 0 <= k < |c| ensures s[k] != '/' {
      assert s[k] == c[k];
    }
    forall k | |c| < k < |s| ensures s[k] != '/' {
      assert s[k] == t[k - |c| - 1];
    }
  }

  /** A JavaScript string attribute is truthy when present and non-empty. */
  predicate Truthy(attr: Option<string>) {
    attr.Some? && attr.value != ""
  }

  /**
   * Whether the try block reaches its second statement: the messages
   * attribute is absent, empty, or parses.
   */
  predicate MessagesStepCompletes(attr: Option<string>, dec: Decoders) {
    !Truthy(attr) || dec.messages(attr.value).Some?
  }

  /**
   * loadCustomResultMessages: inside one try block, assign the parsed
   * messages when that attribute is truthy, then the parsed ranges when that
   * one is. A throwing parse abandons the rest of the block, so a failed
   * messages parse also skips the ranges, and a failed ranges parse keeps
   * the messages already assigned.
   */
  function LoadCustomResultMessages(s: Session, el: BlockElement, dec: Decoders): (r: Session)
    ensures r == s.(resultMessages := r.resultMessages, scoreRanges := r.scoreRanges)
    ensures r.resultMessages ==
              (if Truthy(el.messagesAttr) && dec.messages(el.messagesAttr.value).Some?
               then dec.messages(el.messagesAttr.value).value else s.resultMessages)
    ensures r.scoreRanges ==
              (if MessagesStepCompletes(el.messagesAttr, dec) && Truthy(el.rangesAttr)
                  && dec.ranges(el.rangesAttr.value).Some?
               then dec.ranges(el.rangesAttr.value).value else s.scoreRanges)
  {
    if Truthy(el.messagesAttr) && dec.messages(el.messagesAttr.value).None? then
      s
    else
      var s1 := if Truthy(el.messagesAttr) then s.(resultMessages := dec.messages(el.messagesAttr.value).value) else s;
      if Truthy(el.rangesAttr) then
        match dec.ranges(el.rangesAttr.value)
        case None => s1
        case Some(v) => s1.(scoreRanges := v)
      else s1
  }

  /**
   * A messages attribute that fails to parse leaves the whole configuration
   * in place (e.g. the defaults), even when the ranges attribute is well formed.
   */
  lemma ConfigurationFallback(s: Session, el: BlockElement, dec: Decoders)
    requires Truthy(el.messagesAttr) && dec.messages(el.messagesAttr.value).None?
    ensures LoadCustomResultMessages(s, el, dec).resultMessages == s.resultMessages
    ensures LoadCustomResultMessages(s, el, dec).scoreRanges == s.scoreRanges
  {
  }

  /** A ranges attribute that fails to parse does not undo messages already applied. */
  lemma MessagesSurviveRangesFailure(s: Session, el: BlockElement, dec: Decoders)
    requires Truthy(el.messagesAttr) && dec.messages(el.messagesAttr.value).Some?
    requires Truthy(el.rangesAttr) && dec.ranges(el.rangesAttr.value).None?
    ensures LoadCustomResultMessages(s, el, dec).resultMessages == dec.messages(el.messagesAttr.value).value
    ensures LoadCustomResultMessages(s, el, dec).scoreRanges == s.scoreRanges
  {
  }

  /** createScoreDisplay: a fresh counter reading "0/total". */
  function CreateScoreDisplay(s: Session): (r: Session)
    ensures r.scoreElement.Some? && r.scoreElement.value.result.None?
    ensures ReadScoreText(r.scoreElement.value.current) == Some((0, s.totalQuestions))
    ensures r == s.(scoreElement := r.scoreElement)
  {
    ScoreTextRoundTrip(0, s.totalQuestions);
    s.(scoreElement := Some(ScoreDisplay(ScoreText(0, s.totalQuestions), None)))
  }

  /**
   * initTriviaBlocks: nothing at all when the page has no trivia blocks;
   * otherwise count them, load the configuration from the first one and
   * create the counter. The answered set and the score are left as they are.
   */
  function Init(s: Session, blocks: seq<BlockElement>, dec: Decoders): (r: Session)
    ensures |blocks| == 0 ==> r == s
    ensures |blocks| > 0 ==>
              && r.totalQuestions == |blocks|
              && r.correctAnswers == s.correctAnswers
              && r.answeredQuestions == s.answeredQuestions
              && r.scoreElement.Some? && r.scoreElement.value.result.None?
              && ReadScoreText(r.scoreElement.value.current) == Some((0, |blocks|))
              && r.resultMessages == LoadCustomResultMessages(s, blocks[0], dec).resultMessages
              && r.scoreRanges == LoadCustomResultMessages(s, blocks[0], dec).scoreRanges
  {
    if |blocks| == 0 then s
    else
      var counted := s.(totalQuestions := |blocks|);
      CreateScoreDisplay(LoadCustomResultMessages(counted, blocks[0], dec))
  }

  /**
   * resetTrivia: restore the initial record (no score, nothing answered,
   * default messages and ranges) and initialise again.
   */
  function Reset(blocks: seq<BlockElement>, dec: Decoders): (r: Session)
    ensures r.correctAnswers == 0 && r.answeredQuestions == {}
    ensures r.totalQuestions == |blocks|
    ensures |blocks| == 0 ==> r == InitialSession
    ensures |blocks| > 0 ==> r.scoreElement.Some? && ReadScoreText(r.scoreElement.value.current) == Some((0, |blocks|))
    ensures |blocks| > 0 && !Truthy(blocks[0].messagesAttr) && !Truthy(blocks[0].rangesAttr) ==>
              r.resultMessages == DefaultMessages && r.scoreRanges == DefaultRanges
  {
    Init(InitialSession, blocks, dec)
  }

  /** updateScoreDisplay: rewrite the counter text, if a counter exists. */
  function UpdateScoreDisplay(s: Session): (r: Session)
    ensures r.scoreElement.Some? <==> s.scoreElement.Some?
    ensures r.scoreElement.Some? ==>
              && ReadScoreText(r.scoreElement.value.current) == Some((s.correctAnswers, s.totalQuestions))
              && r.scoreElement.value.result == s.scoreElement.value.result
    ensures r == s.(scoreElement := r.scoreElement)
  {
    ScoreTextRoundTrip(s.correctAnswers, s.totalQuestions);
    match s.scoreElement
    case None => s
    case Some(d) => s.(scoreElement := Some(d.(current := ScoreText(s.correctAnswers, s.totalQuestions))))
  }

  /** The result the final-results step computes from the score and the configuration. */
  function Evaluate(s: Session): (f: FinalResult)
    requires s.totalQuestions > 0
    ensures 2 * s.totalQuestions * f.percentage <= 200 * s.correctAnswers + s.totalQuestions
              < 2 * s.totalQuestions * (f.percentage + 1)
    ensures s.correctAnswers <= s.totalQuestions ==> f.percentage <= 100
    ensures Reaches(f.percentage, s.scoreRanges, f.tier)
    ensures forall u :: Rank(u) > Rank(f.tier) ==> !Reaches(f.percentage, s.scoreRanges, u)
    ensures f.message == MessageFor(s.resultMessages, f.tier)
  {
    var p := Percentage(s.correctAnswers, s.totalQuestions);
    var t := ResolveTier(p, s.scoreRanges);
    FinalResult(p, t, MessageFor(s.resultMessages, t))
  }

  /**
   * showFinalResults: without a counter it does nothing; otherwise the
   * counter's label gets the evaluated result (after a delay the model
   * does not represent). The score itself is untouched.
   */
  function ShowFinalResults(s: Session): (r: Session)
    requires s.totalQuestions > 0
    ensures s.scoreElement.None? ==> r == s
    ensures s.scoreElement.Some? ==>
              r.scoreElement == Some(s.scoreElement.value.(result := Some(Evaluate(s))))
    ensures r == s.(scoreElement := r.scoreElement)
  {
    match s.scoreElement
    case None => s
    case Some(d) => s.(scoreElement := Some(d.(result := Some(Evaluate(s)))))
  }

  /**
   * The option-marking loop of the answer handler, applied to one button:
   * disable it; the selected one gets `is-selected` and `is-correct` or
   * `is-incorrect`; on a wrong answer the button at the correct index also
   * gets `is-correct`. Classes are only ever added.
   */
  function MarkOption(m: OptionMark, index: int, selected: int, correctAnswer: int): OptionMark {
    var isCorrect := selected == correctAnswer;
    if index == selected then
      m.(disabled := true, selected := true,
         correct := m.correct || isCorrect, incorrect := m.incorrect || !isCorrect)
    else if index == correctAnswer && !isCorrect then
      m.(disabled := true, correct := true)
    else
      m.(disabled := true)
  }

  function MarkOptions(marks: seq<OptionMark>, selected: int, correctAnswer: int): (r: seq<OptionMark>)
    ensures |r| == |marks|
    ensures forall i :: 0 <= i < |r| ==> r[i] == MarkOption(marks[i], i, selected, correctAnswer)
  {
    seq(|marks|, i requires 0 <= i < |marks| => MarkOption(marks[i], i, selected, correctAnswer))
  }

  /**
   * On buttons that carried no marks, one answer leaves every button
   * disabled, only the selected one `is-selected`, `is-correct` on the
   * selected button when right and on the true correct button when wrong,
   * `is-incorrect` only on a wrongly selected button, and nothing else.
   */
  lemma MarkFreshOptions(n: nat, selected: nat, correctAnswer: int)
    requires selected < n
    ensures var r := MarkOptions(seq(n, _ => Unmarked), selected, correctAnswer);
            var isCorrect := selected == correctAnswer;
            && |r| == n
            && (forall i :: 0 <= i < n ==> r[i].disabled)
            && (forall i :: 0 <= i < n ==> (r[i].selected <==> i == selected))
            && (forall i :: 0 <= i < n ==> (r[i].correct <==> i == correctAnswer))
            && (forall i :: 0 <= i < n ==> (r[i].incorrect <==> i == selected && !isCorrect))
  {
  }

  /**
   * handleAnswerSelection. Already-answered questions are ignored. Otherwise
   * the question is recorded as answered, the score goes up by one exactly
   * when the selected index is the correct one, the buttons are marked, the
   * counter is refreshed, an attempt is reported, and the final-results
   * step runs when the answered set has reached the question count.
   */
  function HandleAnswerSelection(s: Session, el: BlockElement, selectedIndex: nat, marks: seq<OptionMark>): (r: Selection)
    ensures el.blockId in s.answeredQuestions ==> r == Selection(s, marks, None, false)
    ensures el.blockId !in s.answeredQuestions ==>
              var isCorrect := selectedIndex == el.correctAnswer;
              && r.session.answeredQuestions == s.answeredQuestions + {el.blockId}
              && |r.session.answeredQuestions| == |s.answeredQuestions| + 1
              && r.session.correctAnswers == s.correctAnswers + (if isCorrect then 1 else 0)
              && r.session.totalQuestions == s.totalQuestions
              && r.session.resultMessages == s.resultMessages
              && r.session.scoreRanges == s.scoreRanges
              && r.marks == MarkOptions(marks, selectedIndex, el.correctAnswer)
              && r.attempt == Some(Attempt(el.blockId, selectedIndex, isCorrect))
              && (r.finalStep <==> |r.session.answeredQuestions| == s.totalQuestions)
              && (r.session.scoreElement.Some? <==> s.scoreElement.Some?)
              && (r.session.scoreElement.Some? ==>
                    ReadScoreText(r.session.scoreElement.value.current)
                      == Some((r.session.correctAnswers, r.session.totalQuestions)))
              && (r.session.scoreElement.Some? && r.finalStep ==>
                    r.session.scoreElement.value.result == Some(Evaluate(r.session)))
              && (r.session.scoreElement.Some? && !r.finalStep ==>
                    r.session.scoreElement.value.result == s.scoreElement.value.result)
  {
    if el.blockId in s.answeredQuestions then
      Selection(s, marks, None, false)
    else
      var isCorrect := selectedIndex == el.correctAnswer;
      var answered := s.(answeredQuestions := s.answeredQuestions + {el.blockId});
      var scored := if isCorrect then answered.(correctAnswers := s.correctAnswers + 1) else answered;
      var marked := MarkOptions(marks, selectedIndex, el.correctAnswer);
      var shown := UpdateScoreDisplay(scored);
      var finalStep := |shown.answeredQuestions| == shown.totalQuestions;
      var done := if finalStep then ShowFinalResults(shown) else shown;
      Selection(done, marked, Some(Attempt(el.blockId, selectedIndex, isCorrect)), finalStep)
  }
}
