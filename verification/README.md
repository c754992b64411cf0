# Trivia block: a Dafny model

The trivia-block WordPress plugin adds a multiple-choice question block to
posts. The plugin has three parts:

- **Editor.** An author writes a question and two to six options, picks the
  correct one, and tunes the result tiers. The tiers are four messages
  (excellent, good, okay, poor) and three minimum percentages. Tier edits are
  copied to every other trivia block at the top level of the post.
- **Server.** The PHP render callback turns the stored attributes into a
  block element:
  - it applies attribute defaults and the WordPress sanitizers;
  - it reads the correct index with `intval`;
  - it renders nothing when the question or every option is empty in PHP's
    sense;
  - it emits one button per non-empty option.

  A REST endpoint checks the nonce of a reported attempt and echoes the
  attempt back.
- **Script.** On the front end, a script keeps one session over all blocks
  of the page:
  - it counts the questions and reads the tier configuration from the first
    block;
  - it grades the first activation of each question and marks its buttons;
  - it keeps a "correct/total" counter;
  - once every question is answered, it shows the percentage, the tier and
    the tier's message.

The model, one module per part plus shared pieces:

| file | module | what it holds |
|---|---|---|
| optional.dfy | `Optional` | `Option` |
| text.dfy | `Text` | decimal spelling of naturals and reading it back; JavaScript `trim` |
| tiers.dfy | `Tiers` | messages, thresholds, default configuration, the tier chain, rounding to a percentage, single-tier edits |
| frontend.dfy | `Frontend` | the script's session record and each of its functions |
| interaction.dfy | `Interaction` | pages of blocks, click and key events, runs of events, the session invariant, "final results at most once", a worked four-question scenario |
| editor.dfy | `Editor` | the edit component's attribute handlers, validation, tier synchronisation |
| render.dfy | `Render` | `intval`, `empty()`, the render callback's decisions, the REST route's parameters, `log_attempt` |
| joint.dfy | `Joint` | editor to server to script to server: how a click is graded against the stored correct option |

Modelling choices:

- **Abstracted functions.** JSON parsing is a decoder function
  `string -> Option<T>`, where `None` means the parse throws.
  `wp_kses_post`, `sanitize_text_field`, `wp_verify_nonce`, `uniqid` and
  `current_time` are parameters.
- **Markup.** It is kept as a record of what is emitted, not as HTML.
- **Percentages.** They are exact: `Math.round(c / t * 100)` is modelled as
  rounding the rational `100c/t` half up.
- **Configuration loading.** Messages are assigned before the ranges are
  parsed inside the same `try`, so a malformed ranges attribute keeps the
  new messages (`Frontend.MessagesSurviveRangesFailure`).
- **Worked example.** Four questions with correct answers 1, 0, 2, 0,
  answered by selecting 1, 1, 2, 3, give 2/4, 50 % and "okay"
  (`Interaction.FourQuestionScenario`).
- **Reset.** `resetTrivia` initialises the blocks again, which attaches a
  second pair of listeners to every button. The first listener marks the
  block answered, so the second returns at once. The model therefore
  delivers each event once, and a reset page is the freshly loaded page.

## Model

| member | source | states |
|---|---|---|
| Text.DecimalRoundTrip | assets/js/trivia-block-frontend.js:188 | reading back the digits a template literal prints for a count gives the count |
| Text.DecimalInjective | assets/js/trivia-block-frontend.js:188 | different counts print differently |
| Text.TrimEmptyIff | src/trivia-block/edit.js:117-118 | `s.trim() === ''` holds exactly when every character of `s` is ECMAScript white space or a line terminator |
| Tiers.ResolveTier | assets/js/trivia-block-frontend.js:210-223 | the chosen tier's threshold is reached and no better-ranked tier's threshold is, so the first matching branch of the chain wins; "poor" is always reached |
| Tiers.ResolveTierMonotone | assets/js/trivia-block-frontend.js:210-223 | a higher percentage never gets a worse tier, whatever the thresholds |
| Tiers.ResolveTierBands | assets/js/trivia-block-frontend.js:210-223 | with thresholds in order, each tier is chosen exactly on its band of percentages |
| Tiers.DefaultTierExamples | assets/js/trivia-block-frontend.js:21-25 | with the default thresholds 90/70/50: 95 and 90 are excellent, 70 good, 69 and 50 okay, 49 and 0 poor |
| Tiers.Percentage | assets/js/trivia-block-frontend.js:206 | the percentage is 100·correct/total rounded half up (`2tp <= 200c + t < 2t(p+1)`); it is at most 100 when correct <= total and exactly 100 when all are correct |
| Tiers.PercentageMonotone | assets/js/trivia-block-frontend.js:206 | more correct answers never give a lower percentage |
| Tiers.PercentageExamples | assets/js/trivia-block-frontend.js:206 | 3/4 is 75, 1/8 is 13 (half rounds up), 3/8 is 38, 2/3 is 67, 1/3 is 33, 0/5 is 0 |
| Tiers.WithMessage | src/trivia-block/edit.js:104 | `{ ...resultMessages, [level]: text }` changes that tier's message to `text` and no other |
| Tiers.WithMinimum | src/trivia-block/edit.js:111 | `{ ...scoreRanges, [level]: value }` changes a graded tier's minimum to `value` and no other minimum; a "poor" key changes none of the three minimums the script reads |
| Frontend.ScoreTextRoundTrip | assets/js/trivia-block-frontend.js:186-189 | the counter text determines the score: it reads back as (correct, total) |
| Frontend.LoadCustomResultMessages | assets/js/trivia-block-frontend.js:54-69 | messages are replaced when their attribute is truthy and parses; ranges are replaced only when, in addition, the messages step did not throw and their own attribute is truthy and parses; nothing else changes |
| Frontend.ConfigurationFallback | assets/js/trivia-block-frontend.js:54-69 | a messages attribute that fails to parse leaves both messages and ranges as they were, even when the ranges attribute is well formed |
| Frontend.MessagesSurviveRangesFailure | assets/js/trivia-block-frontend.js:54-69 | a ranges attribute that fails to parse keeps the messages already assigned |
| Frontend.CreateScoreDisplay | assets/js/trivia-block-frontend.js:160-176 | a new counter reads (0, total) and shows no result |
| Frontend.Init | assets/js/trivia-block-frontend.js:31-49 | a page without blocks changes nothing; otherwise the question count is the block count, the configuration comes from the first block, the counter reads (0, count), and the score and answered set are untouched |
| Frontend.Reset | assets/js/trivia-block-frontend.js:274-291 | after a reset nothing is answered and the score is 0; without configuration attributes the defaults are back |
| Frontend.UpdateScoreDisplay | assets/js/trivia-block-frontend.js:181-196 | the counter, if any, reads back the current (correct, total); any shown result is kept; nothing else changes |
| Frontend.Evaluate | assets/js/trivia-block-frontend.js:206-223 | the result's percentage is the half-up rounding of the score; its tier is the best one reached; its message is that tier's message |
| Frontend.ShowFinalResults | assets/js/trivia-block-frontend.js:201-235 | without a counter nothing happens; otherwise the counter shows the evaluated result and the score is untouched |
| Frontend.MarkOptions | assets/js/trivia-block-frontend.js:118-134 | the loop marks each button on its own, by its position, and keeps the number of buttons |
| Frontend.MarkFreshOptions | assets/js/trivia-block-frontend.js:118-134 | on unmarked buttons, one answer disables all of them; only the selected one is `is-selected`; `is-correct` is on exactly the correct position; `is-incorrect` is on the selected one only when wrong |
| Frontend.HandleAnswerSelection | assets/js/trivia-block-frontend.js:99-155 | an answered question is ignored; otherwise its id joins the answered set, the score rises by one exactly when the selected index equals the correct one, the buttons are marked, the counter reads the new score, the attempt is reported, and the final step runs exactly when the answered set reaches the question count |
| Interaction.Step | assets/js/trivia-block-frontend.js:80-92 | an event reaches the handler exactly when it activates an existing button; other events change nothing; the blocks, the question count and the configuration never change |
| Interaction.Run | assets/js/trivia-block-frontend.js:80-92 | a run of events keeps the blocks, the question count and the configuration |
| Interaction.Load | assets/js/trivia-block-frontend.js:31-49 | the page as first initialised: every question counted, nothing answered, a score of 0, the configuration from the first block, a counter reading 0/total when there is a block, and no button marked |
| Interaction.ResetPage | assets/js/trivia-block-frontend.js:274-315 | after a reset nothing is answered, the score is 0, every button is unmarked, and the page is exactly the freshly loaded one |
| Interaction.Conservation | assets/js/trivia-block-frontend.js:104-115 | under the session invariant, score <= answered <= questions |
| Interaction.LoadEstablishesInv | assets/js/trivia-block-frontend.js:31-49 | a freshly loaded page satisfies the session invariant |
| Interaction.StepPreservesInv | assets/js/trivia-block-frontend.js:99-155 | every event preserves the session invariant |
| Interaction.RunPreservesInv | assets/js/trivia-block-frontend.js:99-155 | every run preserves the session invariant |
| Interaction.RunCompletions | assets/js/trivia-block-frontend.js:151-154 | the final step runs once in a run exactly when the run takes the page from not finished to finished, and never otherwise |
| Interaction.CompletesAtMostOnce | assets/js/trivia-block-frontend.js:151-154 | from any page, the final step runs at most once, and never on a page already finished |
| Interaction.RepeatIsNoOp | assets/js/trivia-block-frontend.js:100-103 | a second activation of an answered question, with any option or input, changes nothing and reports nothing |
| Interaction.ActivationsAgree | assets/js/trivia-block-frontend.js:80-92 | Enter and Space on a button do exactly what a click does |
| Interaction.OtherKeysIgnored | assets/js/trivia-block-frontend.js:87-92 | any other key changes nothing |
| Interaction.RunAnswers | assets/js/trivia-block-frontend.js:99-106 | answered questions stay answered, and every block an event activates ends up answered |
| Interaction.CoveredAllAnswered | assets/js/trivia-block-frontend.js:99-106 | once every block has been activated, the answered set is exactly the page's block ids |
| Interaction.AnsweringAllCompletes | assets/js/trivia-block-frontend.js:151-154 | on a page with distinct ids, activating every block runs the final step exactly once and leaves the evaluated result on the counter |
| Interaction.StepCompleting | assets/js/trivia-block-frontend.js:151-154 | the step that finishes a page shows the result of the state it leaves |
| Interaction.RunResult | assets/js/trivia-block-frontend.js:151-154 | after a run that finished the page, the counter shows the result of the final state |
| Interaction.RunUnchangedWhenDone | assets/js/trivia-block-frontend.js:100-103 | once every question is answered, no run changes the score or the counter |
| Interaction.DuplicateIdsNeverComplete | assets/js/trivia-block-frontend.js:151-154 | when two blocks share an id, the answered set never reaches the question count and the final step never runs |
| Interaction.Keyed | assets/js/trivia-block-frontend.js:101-106 | relabels every block with its place on the page, keeping everything else |
| Interaction.KeyedDistinct | assets/js/trivia-block-frontend.js:101-106 | places on the page are distinct keys |
| Interaction.KeyedAnsweringAllCompletes | assets/js/trivia-block-frontend.js:101-154 | corrected keying: answers keyed by the block's place on the page, activating every block completes the page exactly once and shows the result, even when two blocks share an id |
| Interaction.StepAnswers | assets/js/trivia-block-frontend.js:104-115 | a first answer adds the block's id to the answered set and adds one to the score exactly when it is correct |
| Interaction.FourQuestionScenario | assets/js/trivia-block-frontend.js:99-235 | four questions with correct answers 1, 0, 2, 0, answered 1, 1, 2, 3: the final step runs once, the counter reads 2/4, and the result is 50 %, "okay", with the default okay message |
| Editor.OnChangeOption | src/trivia-block/edit.js:55-59 | the option at `index` becomes the new text; all other options and attributes are unchanged |
| Editor.AddOption | src/trivia-block/edit.js:62-68 | below six options, one empty option is appended; at six, nothing changes; never more than six |
| Editor.Without | src/trivia-block/edit.js:73 | the filter drops exactly the option at `index` and shifts the later ones down by one; an index out of range drops nothing |
| Editor.RemoveOption | src/trivia-block/edit.js:71-80 | with more than two options, the one at `index` is dropped and the correct index is reset to 0 only when it no longer fits; with two, nothing changes |
| Editor.EditsKeepWellFormed | src/trivia-block/edit.js:62-80 | adding and removing options keep 2..6 options and a correct index among them |
| Editor.AddThenRemove | src/trivia-block/edit.js:62-80 | removing the option just added restores the attributes |
| Editor.RemoveOptionMovesCorrect | src/trivia-block/edit.js:71-80 | removing an option before the correct one leaves a different original option marked correct |
| Editor.RemoveOptionExample | src/trivia-block/edit.js:71-80 | from A, B, C, D with C correct, removing A leaves D marked correct |
| Editor.RemoveOptionShifted | src/trivia-block/edit.js:71-80 | corrected removal: the correct index follows its option when another option goes, so the same text stays correct; it falls back to 0 when the correct option itself goes; the bounds are kept |
| Editor.SetCorrectAnswer | src/trivia-block/edit.js:83-85 | the correct index becomes the chosen one and nothing else changes; an index among 2..6 options gives well-formed attributes |
| Editor.IsValidIff | src/trivia-block/edit.js:116-119 | the block is valid exactly when the question and every option contain a non-white-space character |
| Editor.Sync | src/trivia-block/edit.js:88-100 | every top-level trivia block other than the current one gets exactly the given messages and ranges; every other block is left as it was |
| Editor.SetOwn | src/trivia-block/edit.js:105 | `setAttributes` applies the edit to the current block only |
| Editor.UpdateResultMessageSyncs | src/trivia-block/edit.js:88-107 | `updateResultMessage`: after a message edit, the current block and every top-level trivia block carry the edited messages and the current ranges; only the edited tier's message differs; no other block or attribute changes |
| Editor.UpdateScoreRangeSyncs | src/trivia-block/edit.js:88-114 | `updateScoreRange`: after a threshold edit, the current block and every top-level trivia block carry the edited ranges and the current messages; only the edited tier's minimum differs; no other block or attribute changes |
| Render.IntVal | includes/class-trivia-block-plugin.php:89 | `intval`: null is 0, a boolean is 0 or 1, an integer is kept, a float is truncated toward zero (the result is within 1 of it, on the zero side), and a string gives a value within the 64-bit range |
| Render.IntValReadsDecimal | includes/class-trivia-block-plugin.php:89 | `intval` reads every decimal spelling of an in-range integer, plain or with a sign, back as that integer |
| Render.IntValExamples | includes/class-trivia-block-plugin.php:89 | `intval` keeps integers, truncates floats toward zero (1.9 to 1, -1.9 to -1), maps true to 1, and reads a string with no leading digits as 0 |
| Render.WithDefaults | includes/class-trivia-block-plugin.php:69-84 | each unset attribute takes its default: an empty question, two empty options, correct index 0, no justification, a generated id, the default messages and thresholds; each set one is kept |
| Render.SanitizeAll | includes/class-trivia-block-plugin.php:88 | every option is passed through `sanitize_text_field`, position by position |
| Render.ButtonsFrom | includes/class-trivia-block-plugin.php:110-120 | each button carries a non-empty option and that option's index in the stored list; indexes strictly increase |
| Render.ButtonsFromComplete | includes/class-trivia-block-plugin.php:110-120 | every non-empty option gets a button |
| Render.Buttons | includes/class-trivia-block-plugin.php:110-120 | the buttons are exactly the non-empty options, in order, each labelled with its stored index |
| Render.ButtonsWithoutEmpty | includes/class-trivia-block-plugin.php:110-120 | with no empty option, button k carries option k |
| Render.RenderBlock | includes/class-trivia-block-plugin.php:67-133 | nothing is rendered exactly when the sanitized question is empty or every sanitized option is; otherwise the element carries the resolved id, thresholds and messages, the `intval` of the correct index, the sanitized question and justification, the buttons of the non-empty options, and a justification container exactly when the justification is non-empty |
| Render.UnsetBlockRendersNothing | includes/class-trivia-block-plugin.php:69-95 | a block with no stored attributes renders nothing |
| Render.IntvalWithThreeArguments | includes/class-trivia-block-plugin.php:211-214 | `intval` called as a sanitize callback, with three arguments: PHP 8 throws and PHP 7 returns null, whatever the value |
| Render.RouteRequest | includes/class-trivia-block-plugin.php:206-219 | the route as registered: under PHP 8 the request dies before the endpoint runs; under PHP 7 the endpoint sees the id through `sanitize_text_field`, the verdict unchanged, and the option as null |
| Render.RouteLosesOption | includes/class-trivia-block-plugin.php:211-214 | as registered, the route never hands the endpoint the option number that was sent |
| Render.RouteRequestCorrected | includes/class-trivia-block-plugin.php:211-214 | with `intval` wrapped in a one-argument callback, every request reaches the endpoint with the sanitized id, the verdict, and an integer option; an integer option arrives unchanged |
| Render.CorrectedRouteKeepsOption | includes/class-trivia-block-plugin.php:211-214 | on the corrected route, an option sent as a number or as its decimal spelling, with or without a minus sign, arrives as that number |
| Render.LogAttempt | includes/class-trivia-block-plugin.php:230-259 | a request whose nonce does not verify is refused with `invalid_nonce` and status 403; any other gets success and its id, option and verdict echoed with the time |
| Joint.ToElement | assets/js/trivia-block-frontend.js:74-77 | the script reads the element's id, its `data-correct-answer` and its number of buttons |
| Joint.ClickReportsJudgement | assets/js/trivia-block-frontend.js:99-155 | a first click on the button at position k reports and scores the verdict "k equals `data-correct-answer`" |
| Joint.PositionAtMostIndex | includes/class-trivia-block-plugin.php:110-120 | a button's position never exceeds its option's index |
| Joint.IndexGap | includes/class-trivia-block-plugin.php:110-120 | between two buttons, option indexes grow at least as fast as positions |
| Joint.LeadingButtonsInPlace | includes/class-trivia-block-plugin.php:110-120 | when no option before `c` is empty, options before `c` sit at their own index as positions |
| Joint.ButtonPosition | includes/class-trivia-block-plugin.php:110-120 | the button showing option `c` sits at position `c` exactly when no option before `c` is empty, and earlier otherwise |
| Joint.GradingAgreesWithoutEarlierEmpty | assets/js/trivia-block-frontend.js:76-108 | with no empty option up to the correct one, a button is judged correct exactly when it shows the stored correct option |
| Joint.GradingAgreesWithoutEmptyOptions | assets/js/trivia-block-frontend.js:76-108 | with no empty option at all, grading is as intended |
| Joint.CorrectButtonJudgedWrong | assets/js/trivia-block-frontend.js:108 | with an empty option before the correct one, the button showing the correct option is judged wrong |
| Joint.AsWrittenExample | includes/class-trivia-block-plugin.php:102-114 | "Rome", blank, "Paris" with index 2 correct renders two buttons and `data-correct-answer` 2, so no button can be judged correct |
| Joint.RenderBlockCorrected | includes/class-trivia-block-plugin.php:102 | corrected render: it emits the position of the correct option's button, or -1; it renders exactly when the callback renders, every other field is the callback's, and a button is judged correct exactly when it shows the stored correct option |
| Joint.UniqueIndexes | includes/class-trivia-block-plugin.php:110-120 | no two buttons carry the same option index |
| Joint.CorrectedExample | includes/class-trivia-block-plugin.php:102-114 | with the corrected render, the example's "Paris" button is judged correct and "Rome" is not |
| Joint.PickedOptionIsCredited | assets/js/trivia-block-frontend.js:240-259 | the correct index set in the editor, rendered by the corrected callback, makes a first click on button k correct exactly when button k shows the picked option. Through the corrected route and with a verifying nonce, `log_attempt` echoes the attempt with the sanitized id and the option number k; otherwise it answers 403 |

## Left out

- **Front-end environment.** The DOM, CSS classes other than the
  selection marks, animation timers (the 300 ms counter highlight and the
  500 ms delay before the final result) and the fixed feedback strings are
  not modelled. Of the network call only the request it would make is
  modelled; `window.triviaBlockAjax` being absent (no call) is left out.
- **Abstracted parsing and WordPress functions.** JSON parsing and
  `wp_json_encode` are abstract functions; a payload that parses to
  something other than a record of the expected shape is not modelled.
  `wp_kses_post`, `sanitize_text_field`, `wp_verify_nonce`, `uniqid` and
  `current_time` are parameters, and HTML escaping (`esc_attr`, `esc_html`)
  is not modelled.
- Tiers.Percentage: the percentage is computed on exact rationals. Float
  division before `Math.round` can differ from exact half-up rounding when
  `100c/t` is exactly halfway between two integers and the float quotient
  lands just below it.
- Render.IntValExamples: strings are read as optional leading white space,
  an optional sign and the longest run of digits after it, clamped to the
  64-bit range. PHP's reading of exponents (`"1e3"` gives 1000) is not
  modelled. Floats outside the 64-bit range and non-scalar values are not
  modelled either.
- **REST request handling.** WordPress's REST request class is not part
  of this model. Its one behaviour the route depends on is taken as given:
  it calls each sanitize callback with three arguments
  (`callback($value, $request, $key)`). The model also takes as given what
  PHP does when a built-in function gets more arguments than it declares:
  PHP 7 warns and returns null, PHP 8 throws. WordPress's cookie
  authentication (`rest_cookie_check_errors`) is not modelled either: it
  checks any `X-WP-Nonce` header against the action `wp_rest` and answers
  403 `rest_cookie_invalid_nonce` before routing. The script sends a nonce
  made for `trivia_block_nonce` in that header
  (assets/js/trivia-block-frontend.js:251-256), so its own reports most
  likely stop there; the route is modelled for requests that reach it. The
  verdict is taken to
  arrive as the JSON boolean the script sends, and what
  `rest_sanitize_boolean` makes of other values is not modelled. The HTTP
  500 page a fatal error produces is modelled only as `Fatal`.
- **Editor UI.** `onChangeQuestion`, which only stores the new text, is not
  modelled. The same goes for block-id generation (it uses `Date.now` and
  `Math.random`), the range sliders' bounds (80-100, 60 to excellent-5,
  30 to good-5), the notices, and the rendering of the edit form.
  `getBlocks()` without a client id returns only the top-level blocks
  (each carrying its inner blocks), and `Sync` looks at those only
  (src/trivia-block/edit.js:89-90), so a trivia block nested inside another
  block is never synced. The model keeps the blocks as one list with a
  `topLevel` flag, and `Sync` touches only flagged blocks.
- **Plugin wiring.** Bootstrap, block registration, asset enqueuing,
  `has_trivia_blocks`, the webpack build, and the route's `required` checks
  (WordPress answers 400 before the callback runs) are not modelled.
- The justification text is rendered hidden and no script ever reveals it,
  so its display is not modelled beyond the "container emitted" decision.
  Only one score counter exists; there is no second, bottom-of-page
  display.

## Findings

| source | as written | input that shows it | evidently intended | confidence | as-written member | corrected member |
|---|---|---|---|---|---|---|
| src/trivia-block/edit.js:71-80 | `removeOption` keeps `correctAnswer` unless it no longer fits, so removing an option before the correct one moves the mark to the next option, or to the first one when the correct option was last | options A, B, C, D with C (index 2) correct; remove index 0: options B, C, D with index 2, that is D, marked correct | the mark stays on C: the index shifts down when an earlier option is removed | not executed | Editor.RemoveOptionMovesCorrect | Editor.RemoveOptionShifted |
| includes/class-trivia-block-plugin.php:102-114 | the server writes the stored correct index into `data-correct-answer` but skips empty options when emitting buttons; the script (assets/js/trivia-block-frontend.js:80-108) compares the button position with that index | options "Rome", "", "Paris" with index 2 correct: buttons Rome, Paris; "Paris" sits at position 1 and is judged wrong, and no button sits at position 2 | the button showing the stored correct option is the one judged correct | not executed | Joint.AsWrittenExample | Joint.RenderBlockCorrected |
| assets/js/trivia-block-frontend.js:101-106 | the answered set is keyed by `data-block-id`; a copied block keeps its id, because the editor (src/trivia-block/edit.js:37-43) only generates one when it is missing | two blocks with id "q1" on one page: every question is answered, but the answered set has one id fewer than the question count, so the final result never appears | each block on the page is answered once and the final result appears after the last one | not executed | Interaction.DuplicateIdsNeverComplete | Interaction.KeyedAnsweringAllCompletes |
| includes/class-trivia-block-plugin.php:211-214 | the route registers the built-in `intval` as the option's sanitize callback; WordPress calls sanitize callbacks with three arguments, and `intval` declares two | a POST to the route with body `block_id` "q1", `selected_option` 1 and `is_correct` true, sent without an `X-WP-Nonce` header (the script's own reports carry one, which WordPress's cookie check answers with 403 before routing): under PHP 8 the request ends in a fatal error and `log_attempt` never runs; under PHP 7 the option arrives as null | the endpoint receives the option number sent | not executed | Render.RouteLosesOption | Render.RouteRequestCorrected |
