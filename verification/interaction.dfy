/**
 * Sequences of user events over one page: each click or key press on an
 * option button is routed to the answer handler of its block. This is where
 * the session invariants live: the score never exceeds the number of
 * answered questions, which never exceeds the question count, and the
 * final-results step runs at most once.
 */
module Interaction {
  import opened Optional
  import Text
  import opened Tiers
  import opened Frontend

  /** A click, or a key pressed while an option button has focus. */
  datatype Input = Click | KeyDown(key: string)

  /** The listeners react to a click and to the Enter and Space keys, identically. */
  predicate Activates(input: Input) {
    input.Click? || input.key == "Enter" || input.key == " "
  }

  /** `input` on button number `option` of block number `block`, both counted from 0 in page order. */
  datatype Event = Event(block: nat, option: nat, input: Input)

  /** The rendered blocks, the session record, and the marks of every block's buttons. */
  datatype Page = Page(blocks: seq<BlockElement>, session: Session, marks: seq<seq<OptionMark>>)

  predicate Shaped(p: Page) {
    && |p.marks| == |p.blocks|
    && forall i :: 0 <= i < |p.blocks| ==> |p.marks[i]| == p.blocks[i].optionCount
  }

  /** The event reaches a listener: an existing button, activated. */
  predicate Targets(p: Page, e: Event) {
    e.block < |p.blocks| && e.option < p.blocks[e.block].optionCount && Activates(e.input)
  }

  datatype Outcome = Outcome(page: Page, attempt: Option<Attempt>, finalStep: bool)

  /** Deliver one event. */
  function Step(p: Page, e: Event): (o: Outcome)
    requires Shaped(p)
    ensures Shaped(o.page) && o.page.blocks == p.blocks
    ensures o.page.session.totalQuestions == p.session.totalQuestions
    ensures o.page.session.resultMessages == p.session.resultMessages
    ensures o.page.session.scoreRanges == p.session.scoreRanges
    ensures !Targets(p, e) ==> o == Outcome(p, None, false)
    ensures Targets(p, e) ==>
              var sel := HandleAnswerSelection(p.session, p.blocks[e.block], e.option, p.marks[e.block]);
              && o.page.session == sel.session
              && o.page.marks[e.block] == sel.marks
              && (forall i :: 0 <= i < |p.marks| && i != e.block ==> o.page.marks[i] == p.marks[i])
              && o.attempt == sel.attempt
              && o.finalStep == sel.finalStep
  {
    if !Targets(p, e) then Outcome(p, None, false)
    else
      var sel := HandleAnswerSelection(p.session, p.blocks[e.block], e.option, p.marks[e.block]);
      Outcome(p.(session := sel.session, marks := p.marks[e.block := sel.marks]), sel.attempt, sel.finalStep)
  }

  /** What a run of events leaves behind: the page, the reported attempts, and how often the final-results step ran. */
  datatype Trace = Trace(page: Page, attempts: seq<Attempt>, completions: nat)

  function Run(p: Page, events: seq<Event>): (t: Trace)
    requires Shaped(p)
    ensures Shaped(t.page) && t.page.blocks == p.blocks
    ensures t.page.session.totalQuestions == p.session.totalQuestions
    ensures t.page.session.resultMessages == p.session.resultMessages
    ensures t.page.session.scoreRanges == p.session.scoreRanges
    decreases |events|
  {
    if |events| == 0 then Trace(p, [], 0)
    else
      var o := Step(p, events[0]);
      var rest := Run(o.page, events[1..]);
      Trace(rest.page,
            (if o.attempt.Some? then [o.attempt.value] else []) + rest.attempts,
            (if o.finalStep then 1 else 0) + rest.completions)
  }

  /** Buttons as rendered: no marks on any of them. */
  function CleanMarks(blocks: seq<BlockElement>): (m: seq<seq<OptionMark>>)
    ensures |m| == |blocks|
    ensures forall i :: 0 <= i < |blocks| ==> |m[i]| == blocks[i].optionCount
    ensures forall i, j :: 0 <= i < |blocks| && 0 <= j < |m[i]| ==> m[i][j] == Unmarked
  {
    seq(|blocks|, i requires 0 <= i < |blocks| => seq(blocks[i].optionCount, _ => Unmarked))
  }

  /**
   * The page as the script first sees it, once initTriviaBlocks has run at
   * DOMContentLoaded: every question counted, nothing answered, no score,
   * the configuration read from the first block, a counter reading
   * "0/total" whenever there is a block, and no button marked.
   */
  function Load(blocks: seq<BlockElement>, dec: Decoders): (p: Page)
    ensures Shaped(p) && p.blocks == blocks
    ensures p.session.totalQuestions == |blocks|
    ensures p.session.correctAnswers == 0 && p.session.answeredQuestions == {}
    ensures |blocks| > 0 ==>
              && p.session.scoreElement.Some? && p.session.scoreElement.value.result.None?
              && ReadScoreText(p.session.scoreElement.value.current) == Some((0, |blocks|))
              && p.session.resultMessages == LoadCustomResultMessages(InitialSession, blocks[0], dec).resultMessages
              && p.session.scoreRanges == LoadCustomResultMessages(InitialSession, blocks[0], dec).scoreRanges
    ensures forall i, j :: 0 <= i < |p.marks| && 0 <= j < |p.marks[i]| ==> p.marks[i][j] == Unmarked
  {
    Page(blocks, Init(InitialSession, blocks, dec), CleanMarks(blocks))
  }

  /**
   * resetTrivia on a page: every button enabled and unmarked, the session
   * restored and initialised again, so the page is the freshly loaded one,
   * whatever was answered before. The re-initialisation attaches a second
   * pair of listeners to every button; a button's first listener marks its
   * block answered, so the second finds it answered and returns, and one
   * activation still counts once.
   */
  function ResetPage(p: Page, dec: Decoders): (r: Page)
    ensures r.blocks == p.blocks && Shaped(r)
    ensures r.session.correctAnswers == 0 && r.session.answeredQuestions == {}
    ensures forall i, j :: 0 <= i < |r.marks| && 0 <= j < |r.marks[i]| ==> r.marks[i][j] == Unmarked
    ensures r == Load(p.blocks, dec)
  {
    Page(p.blocks, Reset(p.blocks, dec), CleanMarks(p.blocks))
  }

  /** The distinct block ids on the page. */
  function Ids(blocks: seq<BlockElement>): (ids: set<string>)
    ensures forall i :: 0 <= i < |blocks| ==> blocks[i].blockId in ids
    ensures forall x :: x in ids ==> exists i :: 0 <= i < |blocks| && blocks[i].blockId == x
    ensures |ids| <= |blocks|
    decreases |blocks|
  {
    if |blocks| == 0 then {}
    else
      var init := blocks[..|blocks| - 1];
      assert forall i :: 0 <= i < |init| ==> init[i] == blocks[i];
      Ids(init) + {blocks[|blocks| - 1].blockId}
  }

  /** The page has as many distinct ids as blocks exactly when no two blocks share an id. */
  lemma {:induction false} IdsCount(blocks: seq<BlockElement>)
    ensures DistinctIds(blocks) <==> |Ids(blocks)| == |blocks|
    decreases |blocks|
  {
    if |blocks| > 0 {
      var init := blocks[..|blocks| - 1];
      var last := blocks[|blocks| - 1].blockId;
      var prior := Ids(init);
      IdsCount(init);
      DistinctSnoc(blocks);
      assert Ids(blocks) == prior + {last};
      if last in prior {
        assert prior + {last} == prior;
        assert !DistinctIds(blocks);
        assert |Ids(blocks)| < |blocks|;
      } else {
        assert |prior + {last}| == |prior| + 1;
      }
    }
  }

  /** No two blocks share an id when none of the earlier ones does and the last id is new. */
  lemma DistinctSnoc(blocks: seq<BlockElement>)
    requires |blocks| > 0
    ensures var init := blocks[..|blocks| - 1];
            DistinctIds(blocks) <==> DistinctIds(init) && blocks[|blocks| - 1].blockId !in Ids(init)
  {
    var init := blocks[..|blocks| - 1];
    var last := blocks[|blocks| - 1].blockId;
    assert forall i :: 0 <= i < |init| ==> init[i] == blocks[i];
    if last in Ids(init) {
      var i :| 0 <= i < |init| && init[i].blockId == last;
      assert blocks[i].blockId == blocks[|blocks| - 1].blockId;
    }
  }

  predicate DistinctIds(blocks: seq<BlockElement>) {
    forall i, j :: 0 <= i < j < |blocks| ==> blocks[i].blockId != blocks[j].blockId
  }

  lemma SubsetSize<T>(a: set<T>, b: set<T>)
    requires a <= b
    ensures |a| <= |b|
  {
    assert b == a + (b - a);
  }

  /**
   * The session invariant: the question count is the number of blocks,
   * only ids of the page's blocks are answered, the score is at most the
   * number answered, the counter shows the score, and a final result is
   * shown only once every question counted is answered.
   */
  predicate Inv(p: Page) {
    var s := p.session;
    && Shaped(p)
    && s.totalQuestions == |p.blocks|
    && s.answeredQuestions <= Ids(p.blocks)
    && s.correctAnswers <= |s.answeredQuestions|
    && (|p.blocks| > 0 ==> s.scoreElement.Some?)
    && (s.scoreElement.Some? ==>
          && ReadScoreText(s.scoreElement.value.current) == Some((s.correctAnswers, s.totalQuestions))
          && (s.scoreElement.value.result.Some? ==> |s.answeredQuestions| == s.totalQuestions))
  }

  /** correctAnswers <= |answeredQuestions| <= totalQuestions wherever the invariant holds. */
  lemma Conservation(p: Page)
    requires Inv(p)
    ensures p.session.correctAnswers <= |p.session.answeredQuestions| <= p.session.totalQuestions
  {
    SubsetSize(p.session.answeredQuestions, Ids(p.blocks));
  }

  lemma LoadEstablishesInv(blocks: seq<BlockElement>, dec: Decoders)
    ensures Inv(Load(blocks, dec))
    ensures Load(blocks, dec).session.answeredQuestions == {}
  {
  }

  lemma StepPreservesInv(p: Page, e: Event)
    requires Inv(p)
    ensures Inv(Step(p, e).page)
  {
    if Targets(p, e) {
      var s := p.session;
      var el := p.blocks[e.block];
      var r := Step(p, e).page.session;
      if el.blockId !in s.answeredQuestions {
        assert el.blockId in Ids(p.blocks);
        SubsetSize(r.answeredQuestions, Ids(p.blocks));
      }
    }
  }

  lemma {:induction false} RunPreservesInv(p: Page, events: seq<Event>)
    requires Inv(p)
    ensures Inv(Run(p, events).page)
    decreases |events|
  {
    if |events| > 0 {
      StepPreservesInv(p, events[0]);
      RunPreservesInv(Step(p, events[0]).page, events[1..]);
    }
  }

  /** Every question counted has been answered. */
  predicate Done(p: Page) {
    |p.session.answeredQuestions| == p.session.totalQuestions
  }

  /**
   * Over any run from a consistent page, the final-results step runs once
   * if the run takes the page from not-done to done, and never otherwise.
   */
  lemma {:induction false} RunCompletions(p: Page, events: seq<Event>)
    requires Inv(p)
    ensures Done(p) ==> Done(Run(p, events).page)
    ensures Run(p, events).completions == (if Done(Run(p, events).page) && !Done(p) then 1 else 0)
    decreases |events|
  {
    if |events| > 0 {
      var q := Step(p, events[0]).page;
      StepPreservesInv(p, events[0]);
      Conservation(p);
      Conservation(q);
      RunCompletions(q, events[1..]);
    }
  }

  /** Whatever the starting state, the final-results step runs at most once in a run. */
  lemma {:induction false} CompletesAtMostOnce(p: Page, events: seq<Event>)
    requires Shaped(p)
    ensures Run(p, events).completions <= 1
    ensures |p.session.answeredQuestions| >= p.session.totalQuestions ==> Run(p, events).completions == 0
    decreases |events|
  {
    if |events| > 0 {
      var o := Step(p, events[0]);
      CompletesAtMostOnce(o.page, events[1..]);
    }
  }

  /** Answering a second time, with any option and any activation, changes nothing. */
  lemma RepeatIsNoOp(p: Page, first: Event, second: Event)
    requires Shaped(p) && Targets(p, first)
    requires second.block == first.block
    ensures var q := Step(p, first).page; Step(q, second) == Outcome(q, None, false)
  {
  }

  /** Click, Enter and Space on the same button have the same effect. */
  lemma ActivationsAgree(p: Page, block: nat, option: nat)
    requires Shaped(p)
    ensures Step(p, Event(block, option, KeyDown("Enter"))) == Step(p, Event(block, option, Click))
    ensures Step(p, Event(block, option, KeyDown(" "))) == Step(p, Event(block, option, Click))
  {
  }

  /** Any other key does nothing. */
  lemma OtherKeysIgnored(p: Page, block: nat, option: nat, key: string)
    requires Shaped(p) && key != "Enter" && key != " "
    ensures Step(p, Event(block, option, KeyDown(key))) == Outcome(p, None, false)
  {
  }

  /** Answered questions stay answered, and every targeted block ends up answered. */
  lemma {:induction false} RunAnswers(p: Page, events: seq<Event>)
    requires Shaped(p)
    ensures p.session.answeredQuestions <= Run(p, events).page.session.answeredQuestions
    ensures forall k :: 0 <= k < |events| && Targets(p, events[k]) ==>
              p.blocks[events[k].block].blockId in Run(p, events).page.session.answeredQuestions
    decreases |events|
  {
    if |events| > 0 {
      var q := Step(p, events[0]).page;
      RunAnswers(q, events[1..]);
      forall k | 0 <= k < |events| && Targets(p, events[k])
        ensures p.blocks[events[k].block].blockId in Run(p, events).page.session.answeredQuestions
      {
        if k > 0 {
          assert events[1..][k - 1] == events[k];
        }
      }
    }
  }

  /** Every block of the page receives at least one activation. */
  predicate CoversAll(blocks: seq<BlockElement>, events: seq<Event>) {
    forall i :: 0 <= i < |blocks| ==> Activated(events, i, blocks[i].optionCount)
  }

  /** Some event activates one of the `buttons` buttons of block number `i`. */
  predicate Activated(events: seq<Event>, i: int, buttons: nat) {
    exists k :: 0 <= k < |events| && events[k].block == i && events[k].option < buttons && Activates(events[k].input)
  }

  /**
   * On a freshly loaded page whose block ids are distinct, once every block
   * has been activated the final-results step has run exactly once and the
   * counter shows the evaluated result.
   */
  lemma AnsweringAllCompletes(blocks: seq<BlockElement>, dec: Decoders, events: seq<Event>)
    requires |blocks| > 0 && DistinctIds(blocks)
    requires CoversAll(blocks, events)
    ensures var t := Run(Load(blocks, dec), events);
            && t.completions == 1
            && t.page.session.totalQuestions == |blocks|
            && t.page.session.scoreElement.Some?
            && t.page.session.scoreElement.value.result == Some(Evaluate(t.page.session))
  {
    var p := Load(blocks, dec);
    LoadEstablishesInv(blocks, dec);
    RunPreservesInv(p, events);
    RunCompletions(p, events);
    CoveredAllAnswered(blocks, dec, events);
    IdsCount(blocks);
    RunResult(p, events);
  }

  /** Once every block has been activated, every block id is answered and nothing else is. */
  lemma CoveredAllAnswered(blocks: seq<BlockElement>, dec: Decoders, events: seq<Event>)
    requires CoversAll(blocks, events)
    ensures Run(Load(blocks, dec), events).page.session.answeredQuestions == Ids(blocks)
  {
    var p := Load(blocks, dec);
    LoadEstablishesInv(blocks, dec);
    RunPreservesInv(p, events);
    RunAnswers(p, events);
    var t := Run(p, events);
    forall x | x in Ids(blocks) ensures x in t.page.session.answeredQuestions {
      var i :| 0 <= i < |blocks| && blocks[i].blockId == x;
      var k :| 0 <= k < |events| && events[k].block == i && events[k].option < blocks[i].optionCount
               && Activates(events[k].input);
      assert Targets(p, events[k]);
    }
  }

  /** The step that completes a page shows the result of the state it leaves. */
  lemma StepCompleting(p: Page, e: Event)
    requires Inv(p) && !Done(p)
    requires Done(Step(p, e).page)
    ensures var s := Step(p, e).page.session;
            s.scoreElement.Some? ==> s.scoreElement.value.result == Some(Evaluate(s))
  {
    assert Targets(p, e);
    var el := p.blocks[e.block];
    assert el.blockId !in p.session.answeredQuestions;
    var sel := HandleAnswerSelection(p.session, el, e.option, p.marks[e.block]);
    assert sel.finalStep;
  }

  /** At the end of a run that completed, the counter holds the result of the final state. */
  lemma {:induction false} RunResult(p: Page, events: seq<Event>)
    requires Inv(p) && !Done(p)
    requires Done(Run(p, events).page)
    ensures var s := Run(p, events).page.session;
            s.scoreElement.Some? ==> s.scoreElement.value.result == Some(Evaluate(s))
    decreases |events|
  {
    assert |events| > 0;
    var q := Step(p, events[0]).page;
    assert Run(p, events).page == Run(q, events[1..]).page;
    StepPreservesInv(p, events[0]);
    if Done(q) {
      StepCompleting(p, events[0]);
      RunUnchangedWhenDone(q, events[1..]);
    } else {
      RunResult(q, events[1..]);
    }
  }

  /** Once every question is answered, no event changes the session. */
  lemma {:induction false} RunUnchangedWhenDone(p: Page, events: seq<Event>)
    requires Inv(p) && Done(p)
    ensures Run(p, events).page.session == p.session
    decreases |events|
  {
    if |events| > 0 {
      var e := events[0];
      if Targets(p, e) && p.blocks[e.block].blockId !in p.session.answeredQuestions {
        var q := Step(p, e).page;
        StepPreservesInv(p, e);
        Conservation(q);
        assert false;
      }
      StepPreservesInv(p, e);
      RunUnchangedWhenDone(Step(p, e).page, events[1..]);
    }
  }

  /**
   * Two blocks sharing one id (a copied block keeps its id) make completion
   * unreachable: the answered set can never grow to the block count.
   */
  lemma DuplicateIdsNeverComplete(p: Page, events: seq<Event>)
    requires Inv(p) && !DistinctIds(p.blocks)
    ensures Run(p, events).completions == 0
    ensures |Run(p, events).page.session.answeredQuestions| < p.session.totalQuestions
  {
    RunPreservesInv(p, events);
    RunCompletions(p, events);
    var q := Run(p, events).page;
    IdsCount(p.blocks);
    SubsetSize(q.session.answeredQuestions, Ids(q.blocks));
    SubsetSize(p.session.answeredQuestions, Ids(p.blocks));
  }

  /**
   * The evident intent is one answer per block on the page, not per id.
   * A script that keys its answered set by the block's place on the page
   * behaves as this one does on the page with every id replaced by that
   * place, spelled in decimal.
   */
  function Keyed(blocks: seq<BlockElement>): (r: seq<BlockElement>)
    ensures |r| == |blocks|
    ensures forall i :: 0 <= i < |blocks| ==> r[i] == blocks[i].(blockId := Text.Decimal(i))
  {
    seq(|blocks|, i requires 0 <= i < |blocks| => blocks[i].(blockId := Text.Decimal(i)))
  }

  /** Places on the page are distinct keys. */
  lemma KeyedDistinct(blocks: seq<BlockElement>)
    ensures DistinctIds(Keyed(blocks))
  {
    var r := Keyed(blocks);
    forall i, j | 0 <= i < j < |r| ensures r[i].blockId != r[j].blockId {
      if r[i].blockId == r[j].blockId {
        Text.DecimalInjective(i, j);
      }
    }
  }

  /** Whether every block is activated depends only on the blocks' button counts. */
  lemma CoversSameButtons(a: seq<BlockElement>, b: seq<BlockElement>, events: seq<Event>)
    requires |a| == |b|
    requires forall i :: 0 <= i < |a| ==> a[i].optionCount == b[i].optionCount
    requires CoversAll(a, events)
    ensures CoversAll(b, events)
  {
  }

  /**
   * Keyed by place, activating every block completes the page exactly once
   * and shows the evaluated result, whether or not two blocks share an id.
   */
  lemma KeyedAnsweringAllCompletes(blocks: seq<BlockElement>, dec: Decoders, events: seq<Event>)
    requires |blocks| > 0
    requires CoversAll(blocks, events)
    ensures var t := Run(Load(Keyed(blocks), dec), events);
            && t.completions == 1
            && t.page.session.scoreElement.Some?
            && t.page.session.scoreElement.value.result == Some(Evaluate(t.page.session))
  {
    var kb := Keyed(blocks);
    KeyedDistinct(blocks);
    CoversSameButtons(blocks, kb, events);
    AnsweringAllCompletes(kb, dec, events);
  }

  /** A first answer on a block records its id and scores it. */
  lemma StepAnswers(p: Page, e: Event)
    requires Shaped(p) && Targets(p, e)
    requires p.blocks[e.block].blockId !in p.session.answeredQuestions
    ensures var s := Step(p, e).page.session;
            && s.answeredQuestions == p.session.answeredQuestions + {p.blocks[e.block].blockId}
            && s.correctAnswers == p.session.correctAnswers + (if e.option == p.blocks[e.block].correctAnswer then 1 else 0)
  {
  }

  /** Four questions with correct answers 1, 0, 2, 0, four buttons each, no custom configuration. */
  const ScenarioBlocks := [BlockElement("q1", 1, 4, None, None), BlockElement("q2", 0, 4, None, None),
                           BlockElement("q3", 2, 4, None, None), BlockElement("q4", 0, 4, None, None)]

  /** Clicks on options 1, 1, 2, 3 of the four questions in turn. */
  const ScenarioEvents := [Event(0, 1, Click), Event(1, 1, Click), Event(2, 2, Click), Event(3, 3, Click)]

  /** The scenario page after its first `n` events. */
  function ScenarioAfter(dec: Decoders, n: nat): (p: Page)
    requires n <= 4
    ensures Shaped(p) && p.blocks == ScenarioBlocks
  {
    if n == 0 then Load(ScenarioBlocks, dec) else Step(ScenarioAfter(dec, n - 1), ScenarioEvents[n - 1]).page
  }

  lemma ScenarioFirstStep(dec: Decoders)
    ensures ScenarioAfter(dec, 1).session.answeredQuestions == {"q1"}
    ensures ScenarioAfter(dec, 1).session.correctAnswers == 1
  {
    var p0 := ScenarioAfter(dec, 0);
    assert p0.session.answeredQuestions == {} && p0.session.correctAnswers == 0;
    StepAnswers(p0, ScenarioEvents[0]);
  }

  lemma ScenarioFirstHalf(dec: Decoders)
    ensures ScenarioAfter(dec, 2).session.answeredQuestions == {"q1", "q2"}
    ensures ScenarioAfter(dec, 2).session.correctAnswers == 1
  {
    ScenarioFirstStep(dec);
    var p1 := ScenarioAfter(dec, 1);
    assert ScenarioEvents[1].option != p1.blocks[1].correctAnswer;
    StepAnswers(p1, ScenarioEvents[1]);
    assert ScenarioAfter(dec, 2) == Step(p1, ScenarioEvents[1]).page;
  }

  lemma ScenarioThirdStep(dec: Decoders)
    ensures ScenarioAfter(dec, 3).session.answeredQuestions == {"q1", "q2", "q3"}
    ensures ScenarioAfter(dec, 3).session.correctAnswers == 2
  {
    ScenarioFirstHalf(dec);
    var p2 := ScenarioAfter(dec, 2);
    StepAnswers(p2, ScenarioEvents[2]);
    assert ScenarioAfter(dec, 3) == Step(p2, ScenarioEvents[2]).page;
  }

  lemma ScenarioSecondHalf(dec: Decoders)
    ensures ScenarioAfter(dec, 4).session.correctAnswers == 2
  {
    ScenarioThirdStep(dec);
    var p3 := ScenarioAfter(dec, 3);
    assert ScenarioEvents[3].option != p3.blocks[3].correctAnswer;
    StepAnswers(p3, ScenarioEvents[3]);
    assert ScenarioAfter(dec, 4) == Step(p3, ScenarioEvents[3]).page;
  }

  lemma ScenarioRun(dec: Decoders)
    ensures Run(Load(ScenarioBlocks, dec), ScenarioEvents).page == ScenarioAfter(dec, 4)
  {
    var e := ScenarioEvents;
    assert e[1..][1..] == e[2..] && e[2..][1..] == e[3..] && e[3..][1..] == [];
    ScenarioRunFrom(dec, 3);
    ScenarioRunFrom(dec, 2);
    ScenarioRunFrom(dec, 1);
    ScenarioRunFrom(dec, 0);
  }

  lemma ScenarioRunFrom(dec: Decoders, n: nat)
    requires n < 4
    ensures Run(ScenarioAfter(dec, n), ScenarioEvents[n..]).page
            == Run(ScenarioAfter(dec, n + 1), ScenarioEvents[n + 1..]).page
  {
    assert ScenarioEvents[n..][1..] == ScenarioEvents[n + 1..];
    assert ScenarioEvents[n..][0] == ScenarioEvents[n];
  }

  /** The scenario's block ids are distinct and its events activate every block. */
  lemma ScenarioCovers()
    ensures DistinctIds(ScenarioBlocks) && CoversAll(ScenarioBlocks, ScenarioEvents)
  {
    var blocks := ScenarioBlocks;
    var events := ScenarioEvents;
    forall i | 0 <= i < |blocks|
      ensures exists k :: 0 <= k < |events| && events[k].block == i && events[k].option < blocks[i].optionCount
                          && Activates(events[k].input)
    {
      if i == 0 {
        assert events[0].block == 0 && events[0].option < blocks[0].optionCount;
      } else if i == 1 {
        assert events[1].block == 1 && events[1].option < blocks[1].optionCount;
      } else if i == 2 {
        assert events[2].block == 2 && events[2].option < blocks[2].optionCount;
      } else {
        assert events[3].block == 3 && events[3].option < blocks[3].optionCount;
      }
    }
  }

  /**
   * The four-question scenario: only the first and third selections match
   * their correct answers, so two are correct, the counter reads "2/4",
   * the final-results step runs once, and the result is 50 %, "okay", with
   * the default "okay" message.
   */
  lemma FourQuestionScenario(dec: Decoders)
    ensures var t := Run(Load(ScenarioBlocks, dec), ScenarioEvents);
            && t.completions == 1
            && t.page.session.correctAnswers == 2
            && t.page.session.scoreElement.Some?
            && ReadScoreText(t.page.session.scoreElement.value.current) == Some((2, 4))
            && t.page.session.scoreElement.value.result == Some(FinalResult(50, Okay, DefaultMessages.okay))
  {
    ScenarioRun(dec);
    ScenarioSecondHalf(dec);
    ScenarioCompletes(dec);
    ScenarioEvaluates(dec);
  }

  /** The scenario answers every question once, so the run completes and its counter reads the score. */
  lemma ScenarioCompletes(dec: Decoders)
    ensures var t := Run(Load(ScenarioBlocks, dec), ScenarioEvents);
            && t.completions == 1
            && t.page.session.totalQuestions == 4
            && t.page.session.scoreElement.Some?
            && t.page.session.scoreElement.value.result == Some(Evaluate(t.page.session))
            && ReadScoreText(t.page.session.scoreElement.value.current)
               == Some((t.page.session.correctAnswers, 4))
  {
    var p0 := Load(ScenarioBlocks, dec);
    ScenarioCovers();
    AnsweringAllCompletes(ScenarioBlocks, dec, ScenarioEvents);
    LoadEstablishesInv(ScenarioBlocks, dec);
    RunPreservesInv(p0, ScenarioEvents);
  }

  /** Two of four with the default configuration is 50 %, "okay". */
  lemma ScenarioEvaluates(dec: Decoders)
    ensures var s := ScenarioAfter(dec, 4).session;
            s.totalQuestions == 4 && s.correctAnswers == 2 ==>
            Evaluate(s) == FinalResult(50, Okay, DefaultMessages.okay)
  {
    ScenarioConfiguration(dec);
    assert Percentage(2, 4) == 50;
  }

  /** With no configuration attributes the scenario keeps the default messages and ranges. */
  lemma ScenarioConfiguration(dec: Decoders)
    ensures ScenarioAfter(dec, 4).session.resultMessages == DefaultMessages
    ensures ScenarioAfter(dec, 4).session.scoreRanges == DefaultRanges
  {
    var p0 := Load(ScenarioBlocks, dec);
    assert p0.session.resultMessages == DefaultMessages && p0.session.scoreRanges == DefaultRanges;
    ScenarioRun(dec);
  }
}
