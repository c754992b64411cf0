/**
 * The block editor's attribute edits: each handler of the edit component
 * turns the block's current attributes into the ones it passes to
 * setAttributes, and the tier edits are copied to the other trivia blocks
 * at the top level of the post.
 */
module Editor {
  import opened Tiers
  import Text

  const MinOptions := 2
  const MaxOptions := 6
  const TriviaBlockName := "trivia-block/trivia"

  /** The block's stored attributes. */
  datatype Attributes = Attributes(
    question: string,
    options: seq<string>,
    correctAnswer: int,
    blockId: string,
    answerJustification: string,
    resultMessages: Messages,
    scoreRanges: Ranges)

  /** The bounds the option buttons of the editor keep: 2..6 options, a correct index among them. */
  predicate WellFormed(a: Attributes) {
    MinOptions <= |a.options| <= MaxOptions && 0 <= a.correctAnswer < |a.options|
  }

  /** onChangeOption: replace the text of one option. */
  function OnChangeOption(a: Attributes, index: nat, value: string): (r: Attributes)
    requires index < |a.options|
    ensures |r.options| == |a.options| && r.options[index] == value
    ensures forall j :: 0 <= j < |a.options| && j != index ==> r.options[j] == a.options[j]
    ensures r == a.(options := r.options)
  {
    a.(options := a.options[index := value])
  }

  /** addOption: append one empty option, unless there are already six. */
  function AddOption(a: Attributes): (r: Attributes)
    ensures |a.options| < MaxOptions ==>
              |r.options| == |a.options| + 1 && r.options[..|a.options|] == a.options && r.options[|a.options|] == ""
    ensures |a.options| >= MaxOptions ==> r == a
    ensures |a.options| <= MaxOptions ==> |r.options| <= MaxOptions
    ensures r == a.(options := r.options)
  {
    if |a.options| < MaxOptions then a.(options := a.options + [""]) else a
  }

  /** `options.filter((_, i) => i !== index)`. */
  function Without(options: seq<string>, index: int): (r: seq<string>)
    ensures 0 <= index < |options| ==>
              && |r| == |options| - 1
              && (forall j :: 0 <= j < index ==> r[j] == options[j])
              && (forall j :: index <= j < |r| ==> r[j] == options[j + 1])
    ensures !(0 <= index < |options|) ==> r == options
  {
    if 0 <= index < |options| then options[..index] + options[index + 1..] else options
  }

  /**
   * removeOption: only when more than two options remain, drop the one at
   * `index`; the correct index falls back to 0 when it no longer fits and
   * is otherwise kept as it was.
   */
  function RemoveOption(a: Attributes, index: int): (r: Attributes)
    ensures |a.options| <= MinOptions ==> r == a
    ensures |a.options| > MinOptions ==>
              && r.options == Without(a.options, index)
              && r.correctAnswer == (if a.correctAnswer >= |r.options| then 0 else a.correctAnswer)
    ensures r == a.(options := r.options, correctAnswer := r.correctAnswer)
  {
    if |a.options| > MinOptions then
      var options := Without(a.options, index);
      a.(options := options, correctAnswer := if a.correctAnswer >= |options| then 0 else a.correctAnswer)
    else a
  }

  /** Adding and removing options keeps 2..6 options and a correct index among them. */
  lemma EditsKeepWellFormed(a: Attributes, index: int)
    requires WellFormed(a)
    ensures WellFormed(AddOption(a))
    ensures WellFormed(RemoveOption(a, index))
  {
  }

  /** Removing the option just added gives back the original attributes. */
  lemma AddThenRemove(a: Attributes)
    requires WellFormed(a) && |a.options| < MaxOptions
    ensures RemoveOption(AddOption(a), |a.options|) == a
  {
    assert AddOption(a).options[..|a.options|] == a.options;
  }

  /** Where an option of the shortened list stood before `index` was removed. */
  function FormerPosition(j: nat, index: nat): nat {
    if j < index then j else j + 1
  }

  /**
   * The correct index is not shifted: after removing an option before the
   * correct one, the option now marked correct is a different one of the
   * original options.
   */
  lemma RemoveOptionMovesCorrect(a: Attributes, index: nat)
    requires WellFormed(a) && |a.options| > MinOptions
    requires index < a.correctAnswer
    ensures var r := RemoveOption(a, index);
            FormerPosition(r.correctAnswer, index) != a.correctAnswer
  {
  }

  /** Removing "A" from A, B, C, D with C correct leaves D marked correct. */
  lemma RemoveOptionExample(a: Attributes)
    requires a.options == ["A", "B", "C", "D"] && a.correctAnswer == 2
    ensures var r := RemoveOption(a, 0);
            r.options == ["B", "C", "D"] && r.options[r.correctAnswer] == "D"
  {
    assert Without(a.options, 0) == ["B", "C", "D"];
  }

  /**
   * removeOption with the correct index following its option: shifted down
   * when an earlier option goes, reset to 0 when the correct option itself
   * goes.
   */
  function RemoveOptionShifted(a: Attributes, index: int): (r: Attributes)
    requires WellFormed(a)
    ensures WellFormed(r)
    ensures |a.options| <= MinOptions ==> r == a
    ensures |a.options| > MinOptions ==> r.options == Without(a.options, index)
    ensures |a.options| > MinOptions && index != a.correctAnswer ==>
              r.options[r.correctAnswer] == a.options[a.correctAnswer]
    ensures |a.options| > MinOptions && 0 <= index < |a.options| && index != a.correctAnswer ==>
              FormerPosition(r.correctAnswer, index) == a.correctAnswer
    ensures |a.options| > MinOptions && index == a.correctAnswer ==> r.correctAnswer == 0
    ensures r == a.(options := r.options, correctAnswer := r.correctAnswer)
  {
    if |a.options| > MinOptions then
      var options := Without(a.options, index);
      var correct :=
        if !(0 <= index < |a.options|) then a.correctAnswer
        else if index == a.correctAnswer then 0
        else if index < a.correctAnswer then a.correctAnswer - 1
        else a.correctAnswer;
      a.(options := options, correctAnswer := correct)
    else a
  }

  /** setCorrectAnswer: mark another option as the correct one. */
  function SetCorrectAnswer(a: Attributes, index: nat): (r: Attributes)
    ensures r.correctAnswer == index
    ensures r == a.(correctAnswer := r.correctAnswer)
    ensures index < |a.options| && MinOptions <= |a.options| <= MaxOptions ==> WellFormed(r)
  {
    a.(correctAnswer := index)
  }

  /** A string with at least one character that trimming keeps. */
  predicate HasContent(s: string) {
    exists i :: 0 <= i < |s| && !Text.IsJsWhitespace(s[i])
  }

  /** The editor's validity check: a question after trimming, and no option empty after trimming. */
  predicate IsValid(a: Attributes) {
    var hasEmptyOptions := exists i :: 0 <= i < |a.options| && Text.Trim(a.options[i]) == "";
    var hasQuestion := Text.Trim(a.question) != "";
    hasQuestion && !hasEmptyOptions
  }

  /** Valid exactly when the question and every option contain a non-whitespace character. */
  lemma IsValidIff(a: Attributes)
    ensures IsValid(a) <==> HasContent(a.question) && forall i :: 0 <= i < |a.options| ==> HasContent(a.options[i])
  {
    Text.TrimEmptyIff(a.question);
    forall i | 0 <= i < |a.options| ensures Text.Trim(a.options[i]) == "" <==> !HasContent(a.options[i]) {
      Text.TrimEmptyIff(a.options[i]);
    }
  }

  /** A block of the post as the block editor store holds it. */
  datatype EditorBlock = EditorBlock(clientId: string, name: string, topLevel: bool, attributes: Attributes)

  /** Whether the synchronisation writes to this block: a top-level trivia block other than the current one. */
  predicate SyncTarget(b: EditorBlock, self: string) {
    b.topLevel && b.name == TriviaBlockName && b.clientId != self
  }

  /**
   * syncResultMessagesAcrossBlocks: every top-level trivia block other than
   * the current one gets exactly the given messages and ranges; every other
   * block, and every other attribute, is left alone.
   */
  function Sync(doc: seq<EditorBlock>, self: string, messages: Messages, ranges: Ranges): (r: seq<EditorBlock>)
    ensures |r| == |doc|
    ensures forall k :: 0 <= k < |doc| && SyncTarget(doc[k], self) ==>
              r[k] == doc[k].(attributes := doc[k].attributes.(resultMessages := messages, scoreRanges := ranges))
    ensures forall k :: 0 <= k < |doc| && !SyncTarget(doc[k], self) ==> r[k] == doc[k]
  {
    seq(|doc|, k requires 0 <= k < |doc| =>
      if SyncTarget(doc[k], self)
      then doc[k].(attributes := doc[k].attributes.(resultMessages := messages, scoreRanges := ranges))
      else doc[k])
  }

  /** setAttributes on the current block, for the attribute edit `edit`. */
  function SetOwn(doc: seq<EditorBlock>, self: string, edit: Attributes -> Attributes): (r: seq<EditorBlock>)
    ensures |r| == |doc|
    ensures forall k :: 0 <= k < |doc| && doc[k].clientId == self ==> r[k] == doc[k].(attributes := edit(doc[k].attributes))
    ensures forall k :: 0 <= k < |doc| && doc[k].clientId != self ==> r[k] == doc[k]
  {
    seq(|doc|, k requires 0 <= k < |doc| =>
      if doc[k].clientId == self then doc[k].(attributes := edit(doc[k].attributes)) else doc[k])
  }

  /**
   * updateResultMessage: the current block's messages with `level`
   * replaced are stored on it and, together with its current ranges,
   * copied to the other top-level trivia blocks.
   */
  function UpdateResultMessage(doc: seq<EditorBlock>, self: string, current: Attributes, level: Tier, text: string): seq<EditorBlock> {
    var messages := WithMessage(current.resultMessages, level, text);
    Sync(SetOwn(doc, self, (b: Attributes) => b.(resultMessages := messages)), self, messages, current.scoreRanges)
  }

  /**
   * updateScoreRange: the current block's ranges with `level` replaced are
   * stored on it and, together with its current messages, copied to the
   * other top-level trivia blocks.
   */
  function UpdateScoreRange(doc: seq<EditorBlock>, self: string, current: Attributes, level: Tier, value: int): seq<EditorBlock> {
    var ranges := WithMinimum(current.scoreRanges, level, value);
    Sync(SetOwn(doc, self, (b: Attributes) => b.(scoreRanges := ranges)), self, current.resultMessages, ranges)
  }

  /** The blocks a tier edit on `self` touches: `self` wherever it sits, and the top-level trivia blocks. */
  predicate Shares(b: EditorBlock, self: string) {
    b.clientId == self || (b.topLevel && b.name == TriviaBlockName)
  }

  /** `current` is what the store holds for `self`. */
  predicate Current(doc: seq<EditorBlock>, self: string, current: Attributes) {
    forall k :: 0 <= k < |doc| && doc[k].clientId == self ==> doc[k].attributes == current
  }

  /**
   * After a message edit, the current block and every top-level trivia
   * block carry the edited messages and the current ranges; only the
   * edited tier's message differs from before; nothing else changes.
   */
  lemma UpdateResultMessageSyncs(doc: seq<EditorBlock>, self: string, current: Attributes, level: Tier, text: string)
    requires Current(doc, self, current)
    ensures var r := UpdateResultMessage(doc, self, current, level, text);
            && |r| == |doc|
            && (forall k :: 0 <= k < |doc| && Shares(doc[k], self) ==>
                  && r[k] == doc[k].(attributes := doc[k].attributes.(resultMessages := r[k].attributes.resultMessages,
                                                                     scoreRanges := current.scoreRanges))
                  && MessageFor(r[k].attributes.resultMessages, level) == text
                  && (forall u :: u != level ==> MessageFor(r[k].attributes.resultMessages, u) == MessageFor(current.resultMessages, u)))
            && (forall k :: 0 <= k < |doc| && !Shares(doc[k], self) ==> r[k] == doc[k])
  {
  }

  /**
   * After a threshold edit, the current block and every top-level trivia
   * block carry the edited ranges and the current messages; only the
   * edited tier's minimum differs from before; nothing else changes.
   */
  lemma UpdateScoreRangeSyncs(doc: seq<EditorBlock>, self: string, current: Attributes, level: Tier, value: int)
    requires Current(doc, self, current)
    ensures var r := UpdateScoreRange(doc, self, current, level, value);
            && |r| == |doc|
            && (forall k :: 0 <= k < |doc| && Shares(doc[k], self) ==>
                  && r[k] == doc[k].(attributes := doc[k].attributes.(resultMessages := current.resultMessages,
                                                                     scoreRanges := r[k].attributes.scoreRanges))
                  && (level != Poor ==> Minimum(r[k].attributes.scoreRanges, level) == value)
                  && (forall u :: u != Poor && u != level ==> Minimum(r[k].attributes.scoreRanges, u) == Minimum(current.scoreRanges, u)))
            && (forall k :: 0 <= k < |doc| && !Shares(doc[k], self) ==> r[k] == doc[k])
  {
  }
}
