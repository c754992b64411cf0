/**
 * The server side of a trivia block: the decisions of the PHP render
 * callback (attribute defaults, intval of the correct answer, the
 * render-nothing guard, which options become buttons, whether the
 * justification container is emitted) and the nonce gate of the REST
 * endpoint that logs attempts. Markup is kept as the record of what is
 * emitted, not as HTML text.
 */
module Render {
  import opened Optional
  import opened Tiers
  import Text

  const PhpIntMax := 0x7FFF_FFFF_FFFF_FFFF
  const PhpIntMin := -0x8000_0000_0000_0000

  /** A PHP scalar, or null. */
  datatype PhpValue = PNull | PBool(b: bool) | PInt(i: int) | PFloat(f: real) | PString(s: string)

  /** PHP's empty() on a string: true for "" and for "0". */
  predicate PhpEmpty(s: string) {
    s == "" || s == "0"
  }

  /** The whitespace PHP skips before a numeric string. */
  predicate IsPhpSpace(c: char) {
    c == ' ' || c == '\t' || c == '\n' || c == '\r' || c == '\U{B}' || c == '\U{C}'
  }

  function SkipSpaces(s: string): (r: string)
    ensures |r| <= |s|
    ensures r == [] || !IsPhpSpace(r[0])
  {
    if |s| > 0 && IsPhpSpace(s[0]) then SkipSpaces(s[1..]) else s
  }

  /** The longest prefix of decimal digits. */
  function LeadingDigits(s: string): (d: string)
    ensures |d| <= |s| && Text.AllDigits(d) && d == s[..|d|]
    ensures |d| == |s| || !Text.IsDigit(s[|d|])
  {
    if |s| > 0 && Text.IsDigit(s[0]) then
      var rest := LeadingDigits(s[1..]);
      assert s[1..][..|rest|] == s[1..|rest| + 1];
      [s[0]] + rest
    else []
  }

  function Clamp(n: int): (r: int)
    ensures PhpIntMin <= r <= PhpIntMax
    ensures PhpIntMin <= n <= PhpIntMax ==> r == n
  {
    if n > PhpIntMax then PhpIntMax else if n < PhpIntMin then PhpIntMin else n
  }

  /**
   * PHP's intval: null is 0, booleans become 0 or 1, floats are truncated
   * toward zero, strings are read as optional leading whitespace, an
   * optional sign and a run of digits (0 when there is none), saturating at
   * the 64-bit limits.
   */
  function IntVal(v: PhpValue): (n: int)
    ensures v.PNull? ==> n == 0
    ensures v.PBool? ==> n == (if v.b then 1 else 0)
    ensures v.PInt? ==> n == v.i
    ensures v.PFloat? && v.f >= 0.0 ==> n as real <= v.f < n as real + 1.0
    ensures v.PFloat? && v.f < 0.0 ==> n as real - 1.0 < v.f <= n as real
    ensures v.PString? ==> PhpIntMin <= n <= PhpIntMax
  {
    match v
    case PNull => 0
    case PBool(b) => if b then 1 else 0
    case PInt(i) => i
    case PFloat(f) => if f >= 0.0 then f.Floor else -((-f).Floor)
    case PString(s) => ReadInt(s)
  }

  /** intval of a string: leading whitespace, an optional sign, then the digits up to the first non-digit. */
  function ReadInt(s: string): int {
    ReadSigned(SkipSpaces(s))
  }

  function ReadSigned(t: string): int {
    Clamp(SignedValue(t))
  }

  /** The value of an optionally signed run of digits, before saturation. */
  function SignedValue(t: string): int {
    if |t| > 0 && t[0] == '-' then -(ReadUnsigned(t[1..]) as int)
    else if |t| > 0 && t[0] == '+' then ReadUnsigned(t[1..])
    else ReadUnsigned(t)
  }

  /** The value of the leading digits, 0 when there are none. */
  function ReadUnsigned(u: string): nat {
    Text.DigitsValue(LeadingDigits(u))
  }

  /** intval reads back every decimal spelling of an integer in range, signed or not. */
  lemma IntValReadsDecimal(n: nat)
    requires n <= PhpIntMax
    ensures IntVal(PString(Text.Decimal(n))) == n
    ensures IntVal(PString("-" + Text.Decimal(n))) == -(n as int)
    ensures IntVal(PString("+" + Text.Decimal(n))) == n
  {
    Text.DecimalRoundTrip(n);
    ReadDigitsSpelling(Text.Decimal(n), n);
  }

  /** The plain, '-' and '+' spellings of a digit run whose value is `n`. */
  lemma ReadDigitsSpelling(d: string, n: nat)
    requires |d| > 0 && Text.AllDigits(d) && Text.DigitsValue(d) == n && n <= PhpIntMax
    ensures ReadInt(d) == n
    ensures ReadInt("-" + d) == -(n as int)
    ensures ReadInt("+" + d) == n
  {
    ReadIntDigits(d, n);
    ReadIntSigned(d, n);
  }

  /** A run of digits reads as its value. */
  lemma ReadIntDigits(d: string, n: nat)
    requires |d| > 0 && Text.AllDigits(d) && Text.DigitsValue(d) == n && n <= PhpIntMax
    ensures ReadInt(d) == n
  {
    assert SkipSpaces(d) == d by {
      assert Text.IsDigit(d[0]);
    }
    assert SignedValue(d) == n by {
      LeadingDigitsOfDigits(d);
    }
  }

  /** A sign followed by a run of digits reads as the value, negated after '-'. */
  lemma ReadIntSigned(d: string, n: nat)
    requires Text.AllDigits(d) && Text.DigitsValue(d) == n && n <= PhpIntMax
    ensures ReadInt("-" + d) == -(n as int)
    ensures ReadInt("+" + d) == n
  {
    LeadingDigitsOfDigits(d);
    var m := "-" + d;
    assert SkipSpaces(m) == m by {
      assert !IsPhpSpace(m[0]);
    }
    assert SignedValue(m) == -(n as int) by {
      assert m[1..] == d;
    }
    var p := "+" + d;
    assert SkipSpaces(p) == p by {
      assert !IsPhpSpace(p[0]);
    }
    assert SignedValue(p) == n by {
      assert p[1..] == d;
    }
  }

  lemma {:induction false} LeadingDigitsOfDigits(d: string)
    requires Text.AllDigits(d)
    ensures LeadingDigits(d) == d
    decreases |d|
  {
    if |d| > 0 {
      LeadingDigitsOfDigits(d[1..]);
    }
  }

  /** intval truncates floats toward zero and leaves integers alone. */
  lemma IntValExamples()
    ensures IntVal(PInt(3)) == 3
    ensures IntVal(PFloat(1.9)) == 1 && IntVal(PFloat(-1.9)) == -1
    ensures IntVal(PBool(true)) == 1
    ensures IntVal(PString("abc")) == 0
  {
    assert IntVal(PFloat(1.9)) == 1 by {
      assert (1.9).Floor == 1;
    }
    assert IntVal(PFloat(-1.9)) == -1 by {
      assert (1.9).Floor == 1;
    }
    assert IntVal(PString("abc")) == 0 by {
      assert LeadingDigits("abc") == [];
    }
  }

  /** The block attributes as stored; `None` is an unset (or null) attribute. */
  datatype BlockAttributes = BlockAttributes(
    question: Option<string>,
    options: Option<seq<string>>,
    correctAnswer: Option<PhpValue>,
    answerJustification: Option<string>,
    blockId: Option<string>,
    resultMessages: Option<Messages>,
    scoreRanges: Option<Ranges>)

  /** The WordPress functions the callback relies on, and the id uniqid would produce. */
  datatype WordPress = WordPress(ksesPost: string -> string, sanitizeTextField: string -> string, uniqueId: string)

  /** One `.trivia-block__option` button: its `data-option-index` and its text. */
  datatype Button = Button(optionIndex: nat, text: string)

  /** What the callback emits for a block it renders. */
  datatype Markup = Markup(
    blockId: string,              // data-block-id
    correctAnswer: int,           // data-correct-answer
    justification: string,        // data-answer-justification
    resultMessages: Messages,     // data-result-messages
    scoreRanges: Ranges,          // data-score-ranges
    question: string,
    buttons: seq<Button>,
    justificationPanel: bool)     // whether .trivia-block__justification is emitted

  /** The callback's result: the empty string, or a block. */
  datatype Output = Nothing | Html(markup: Markup)

  /** The attributes after defaulting: each unset one takes its default. */
  datatype Resolved = Resolved(
    question: string,
    options: seq<string>,
    correctAnswer: PhpValue,
    answerJustification: string,
    blockId: string,
    resultMessages: Messages,
    scoreRanges: Ranges)

  function WithDefaults(a: BlockAttributes, uniqueId: string): (r: Resolved)
    ensures a.question.None? ==> r.question == ""
    ensures a.options.None? ==> r.options == ["", ""]
    ensures a.correctAnswer.None? ==> IntVal(r.correctAnswer) == 0
    ensures a.answerJustification.None? ==> r.answerJustification == ""
    ensures a.blockId.None? ==> r.blockId == uniqueId
    ensures a.resultMessages.None? ==> r.resultMessages == DefaultMessages
    ensures a.scoreRanges.None? ==> r.scoreRanges == Ranges(90, 70, 50)
    ensures a.question.Some? ==> r.question == a.question.value
    ensures a.options.Some? ==> r.options == a.options.value
    ensures a.correctAnswer.Some? ==> r.correctAnswer == a.correctAnswer.value
    ensures a.answerJustification.Some? ==> r.answerJustification == a.answerJustification.value
    ensures a.blockId.Some? ==> r.blockId == a.blockId.value
    ensures a.resultMessages.Some? ==> r.resultMessages == a.resultMessages.value
    ensures a.scoreRanges.Some? ==> r.scoreRanges == a.scoreRanges.value
  {
    Resolved(
      a.question.GetOr(""),
      a.options.GetOr(["", ""]),
      a.correctAnswer.GetOr(PInt(0)),
      a.answerJustification.GetOr(""),
      a.blockId.GetOr(uniqueId),
      a.resultMessages.GetOr(DefaultMessages),
      a.scoreRanges.GetOr(DefaultRanges))
  }

  /** `array_map('sanitize_text_field', $options)`. */
  function SanitizeAll(options: seq<string>, wp: WordPress): (r: seq<string>)
    ensures |r| == |options|
    ensures forall i :: 0 <= i < |options| ==> r[i] == wp.sanitizeTextField(options[i])
  {
    seq(|options|, i requires 0 <= i < |options| => wp.sanitizeTextField(options[i]))
  }

  /**
   * The option loop from position `from` on: a button for every non-empty
   * option, in order, carrying the option's index in the whole list.
   */
  function ButtonsFrom(options: seq<string>, from: nat): (b: seq<Button>)
    requires from <= |options|
    ensures forall k :: 0 <= k < |b| ==>
              && from <= b[k].optionIndex < |options|
              && b[k].text == options[b[k].optionIndex]
              && !PhpEmpty(b[k].text)
    ensures forall k, l :: 0 <= k < l < |b| ==> b[k].optionIndex < b[l].optionIndex
    decreases |options| - from
  {
    if from == |options| then []
    else
      var rest := ButtonsFrom(options, from + 1);
      if PhpEmpty(options[from]) then rest else [Button(from, options[from])] + rest
  }

  /** Some button carries option index `i`. */
  predicate HasButtonFor(b: seq<Button>, i: nat) {
    exists k :: 0 <= k < |b| && b[k].optionIndex == i
  }

  /** Every non-empty option from position `from` on gets a button. */
  lemma {:induction false} ButtonsFromComplete(options: seq<string>, from: nat)
    requires from <= |options|
    ensures forall i :: from <= i < |options| && !PhpEmpty(options[i]) ==> HasButtonFor(ButtonsFrom(options, from), i)
    decreases |options| - from
  {
    if from < |options| {
      ButtonsFromComplete(options, from + 1);
      var rest := ButtonsFrom(options, from + 1);
      var b := ButtonsFrom(options, from);
      if PhpEmpty(options[from]) {
        assert b == rest;
      } else {
        assert b == [Button(from, options[from])] + rest;
        assert b[0].optionIndex == from;
        forall i | from < i < |options| && HasButtonFor(rest, i)
          ensures HasButtonFor(b, i)
        {
          var k :| 0 <= k < |rest| && rest[k].optionIndex == i;
          assert b[k + 1] == rest[k];
        }
      }
    }
  }

  function Buttons(options: seq<string>): (b: seq<Button>)
    ensures forall k :: 0 <= k < |b| ==>
              && 0 <= b[k].optionIndex < |options|
              && b[k].text == options[b[k].optionIndex]
              && !PhpEmpty(b[k].text)
    ensures forall k, l :: 0 <= k < l < |b| ==> b[k].optionIndex < b[l].optionIndex
    ensures forall i :: 0 <= i < |options| && !PhpEmpty(options[i]) ==> HasButtonFor(b, i)
  {
    ButtonsFromComplete(options, 0);
    ButtonsFrom(options, 0)
  }

  /** With no empty option, button k is option k. */
  lemma {:induction false} ButtonsWithoutEmpty(options: seq<string>, from: nat)
    requires from <= |options|
    requires forall i :: from <= i < |options| ==> !PhpEmpty(options[i])
    ensures |ButtonsFrom(options, from)| == |options| - from
    ensures forall k :: 0 <= k < |options| - from ==> ButtonsFrom(options, from)[k].optionIndex == from + k
    decreases |options| - from
  {
    if from < |options| {
      ButtonsWithoutEmpty(options, from + 1);
      var rest := ButtonsFrom(options, from + 1);
      var b := ButtonsFrom(options, from);
      assert b == [Button(from, options[from])] + rest;
      forall k | 0 <= k < |options| - from ensures b[k].optionIndex == from + k {
        if k > 0 {
          assert b[k] == rest[k - 1];
        }
      }
    }
  }

  /** render_block's decisions for one block. */
  function RenderBlock(a: BlockAttributes, wp: WordPress): (out: Output)
    ensures var d := WithDefaults(a, wp.uniqueId);
            var question := wp.ksesPost(d.question);
            var options := SanitizeAll(d.options, wp);
            var justification := wp.ksesPost(d.answerJustification);
            && (out.Nothing? <==> PhpEmpty(question) || forall i :: 0 <= i < |options| ==> PhpEmpty(options[i]))
            && (out.Html? ==>
                  && out.markup.blockId == d.blockId
                  && out.markup.correctAnswer == IntVal(d.correctAnswer)
                  && out.markup.question == question
                  && out.markup.justification == justification
                  && out.markup.resultMessages == d.resultMessages
                  && out.markup.scoreRanges == d.scoreRanges
                  && out.markup.buttons == Buttons(options)
                  && |out.markup.buttons| > 0
                  && (out.markup.justificationPanel <==> !PhpEmpty(justification)))
  {
    var d := WithDefaults(a, wp.uniqueId);
    var question := wp.ksesPost(d.question);
    var options := SanitizeAll(d.options, wp);
    var correctAnswer := IntVal(d.correctAnswer);
    var justification := wp.ksesPost(d.answerJustification);
    if PhpEmpty(question) || forall i :: 0 <= i < |options| ==> PhpEmpty(options[i]) then
      Nothing
    else
      Html(Markup(d.blockId, correctAnswer, justification, d.resultMessages, d.scoreRanges,
                  question, Buttons(options), !PhpEmpty(justification)))
  }

  /** A block with no stored attributes renders nothing: its question defaults to "". */
  lemma UnsetBlockRendersNothing(wp: WordPress)
    requires wp.ksesPost("") == ""
    ensures RenderBlock(BlockAttributes(None, None, None, None, None, None, None), wp) == Nothing
  {
  }

  /** The log-attempt request: the nonce header and the three body parameters after sanitizing. */
  datatype Request = Request(nonce: Option<string>, blockId: string, selectedOption: PhpValue, isCorrect: bool)

  /**
   * The PHP runtime serving the request. It decides what a built-in
   * function called with more arguments than it declares does: PHP 7 warns
   * and returns null, PHP 8 throws ArgumentCountError.
   */
  datatype PhpVersion = Php7 | Php8

  /** A call that returns a value, or one that throws an uncaught error. */
  datatype Call = Returned(value: PhpValue) | Thrown

  /**
   * What the REST layer makes of the request before the endpoint runs: the
   * sanitized request, or a fatal error (an uncaught throw in a sanitize
   * callback) that ends it with no call to the endpoint.
   */
  datatype Routed = Dispatched(req: Request) | Fatal

  /**
   * WordPress calls every sanitize callback as `callback($value, $request,
   * $key)`. The built-in `intval` declares two parameters, so this call
   * never reaches its conversion.
   */
  function IntvalWithThreeArguments(v: PhpValue, version: PhpVersion): (c: Call)
    ensures version == Php8 <==> c.Thrown?
    ensures c.Returned? ==> c.value == PNull
  {
    match version
    case Php7 => Returned(PNull)
    case Php8 => Thrown
  }

  /**
   * The route as registered. `sanitize_text_field` and
   * `rest_sanitize_boolean` are plain PHP functions, which ignore the two
   * extra arguments; the verdict the script sends is already a boolean.
   * The option number goes through the three-argument call of `intval`.
   */
  function RouteRequest(nonce: Option<string>, blockId: string, selectedOption: PhpValue, isCorrect: bool,
                        wp: WordPress, version: PhpVersion): (r: Routed)
    ensures version == Php8 ==> r.Fatal?
    ensures version == Php7 ==>
              r == Dispatched(Request(nonce, wp.sanitizeTextField(blockId), PNull, isCorrect))
  {
    match IntvalWithThreeArguments(selectedOption, version)
    case Thrown => Fatal
    case Returned(o) => Dispatched(Request(nonce, wp.sanitizeTextField(blockId), o, isCorrect))
  }

  /**
   * The route as registered never hands the endpoint the option number:
   * under PHP 8 the request dies, under PHP 7 the option arrives as null,
   * whatever number was sent.
   */
  lemma RouteLosesOption(nonce: Option<string>, blockId: string, k: int, isCorrect: bool,
                         wp: WordPress, version: PhpVersion)
    ensures var r := RouteRequest(nonce, blockId, PInt(k), isCorrect, wp, version);
            r.Fatal? || r.req.selectedOption != PInt(k)
  {
  }

  /**
   * The route with its option callback wrapped, `function ( $value ) {
   * return intval( $value ); }`, so that `intval` sees one argument: the
   * request always reaches the endpoint and carries the `intval` of what
   * was sent.
   */
  function RouteRequestCorrected(nonce: Option<string>, blockId: string, selectedOption: PhpValue, isCorrect: bool,
                                 wp: WordPress): (r: Routed)
    ensures r.Dispatched?
    ensures r.req.nonce == nonce && r.req.blockId == wp.sanitizeTextField(blockId) && r.req.isCorrect == isCorrect
    ensures selectedOption.PInt? ==> r.req.selectedOption == selectedOption
    ensures r.req.selectedOption.PInt?
  {
    Dispatched(Request(nonce, wp.sanitizeTextField(blockId), PInt(IntVal(selectedOption)), isCorrect))
  }

  /**
   * On the corrected route the endpoint receives the number sent, whether
   * it arrives as a JSON number or as its decimal spelling with or without a
   * sign.
   */
  lemma CorrectedRouteKeepsOption(nonce: Option<string>, blockId: string, n: nat, isCorrect: bool, wp: WordPress)
    requires n <= PhpIntMax
    ensures RouteRequestCorrected(nonce, blockId, PInt(n), isCorrect, wp).req.selectedOption == PInt(n)
    ensures RouteRequestCorrected(nonce, blockId, PString(Text.Decimal(n)), isCorrect, wp).req.selectedOption == PInt(n)
    ensures RouteRequestCorrected(nonce, blockId, PString("-" + Text.Decimal(n)), isCorrect, wp).req.selectedOption
              == PInt(-(n as int))
  {
    IntValReadsDecimal(n);
  }

  datatype Response =
    | WpError(code: string, message: string, status: int)
    | Logged(success: bool, message: string, blockId: string, selectedOption: PhpValue, isCorrect: bool, timestamp: string)

  /**
   * log_attempt: a request whose nonce does not verify is refused with a
   * 403 "invalid_nonce" error; any other is answered with success and its
   * three parameters echoed unchanged. Nothing is stored.
   */
  function LogAttempt(req: Request, verifyNonce: Option<string> -> bool, now: string): (r: Response)
    ensures r.WpError? <==> !verifyNonce(req.nonce)
    ensures r.WpError? ==> r.code == "invalid_nonce" && r.status == 403
    ensures r.Logged? ==>
              && r.success
              && r.blockId == req.blockId
              && r.selectedOption == req.selectedOption
              && r.isCorrect == req.isCorrect
              && r.timestamp == now
  {
    if !verifyNonce(req.nonce) then
      WpError("invalid_nonce", "Invalid security token", 403)
    else
      Logged(true, "Attempt logged successfully", req.blockId, req.selectedOption, req.isCorrect, now)
  }
}
