/**
 * The review prompt, version 1: fixed instructions, the user's extra rules,
 * an output example, an optional change description and the diff, always in
 * this order.
 *
 * The fixed text is kept in a `Template` record, one field per piece, and the
 * prompt is the concatenation of a list of pieces. The layout lemmas hold for
 * every template, so they hold for `V1`, the text the extension ships.
 */
module PromptV1 {
  import opened Wrappers
  import opened Text

  /** The fixed pieces of the prompt text. */
  datatype Template = Template(
    intro: string,
    diffFormatTag: string,
    diffFormatLead: string,
    removedLinesLead: string,
    lineZeroNote: string,
    diffFormatTail: string,
    reviewRulesTag: string,
    reviewRulesBody: string,
    reviewRulesCloseTag: string,
    outputRulesTag: string,
    fieldsRule: string,
    fieldDescriptions: string,
    adjustmentFields: string,
    outputRulesTail: string,
    outputExampleTag: string,
    exampleClose: string)

  /** The text of `createReviewPromptV1`'s template literal, piece by piece. */
  const V1: Template := Template(
    "You are a senior software engineer reviewing a pull request. Analyze the following git diff for the changed files.\n\n",
    "<Diff Format>",
    "\n- The diff starts with a diff header, followed by diff lines.\n"
    + "- Diff lines have the format `<LINE NUMBER><TAB><DIFF TYPE><LINE>`.\n"
    + "- Lines with DIFF TYPE `+` are added.\n",
    "- Lines with DIFF TYPE `-` are removed. ",
    "(LINE NUMBER will be 0)",
    "- Lines with DIFF TYPE ` ` are unchanged and provided for context.\n"
    + "</Diff Format>\n\n",
    "<Review Rules>",
    "\n- Provide comments on bugs, security vulnerabilities, code smells, and typos.\n"
    + "- Only provide comments for added lines.\n"
    + "- All comments must be actionable. Do not provide comments that are only positive feedback.\n"
    + "- Do not provide comments on formatting.\n"
    + "- Avoid repetitive comments.\n"
    + "- Do not make assumptions about code that is not included in the diff.\n",
    "</Review Rules>",
    "<Output Rules>",
    "- Respond with a JSON list of comments objects, which contain the fields `file`, `line`, `comment`, `severity`, and optionally `proposedAdjustment`.\n",
    "`file` is the path of the file, taken from the diff header.\n"
    + "`comment` is a string describing the issue.\n"
    + "`line` is the first affected LINE NUMBER.\n"
    + "`severity` is the severity of the issue as an integer from 1 (likely irrelevant) to 5 (critical).\n"
    + "`proposedAdjustment` (optional) is an object with proposed code changes containing:\n",
    "  - `originalCode`: The original code block that needs to be changed\n"
    + "  - `adjustedCode`: The proposed code block replacement  \n"
    + "  - `description`: Explanation of the change\n"
    + "  - `startLine` (optional): Start line for the replacement (if different from comment line)\n"
    + "  - `endLine` (optional): End line for the replacement (if different from comment line)\n",
    "- Include `proposedAdjustment` when you can provide a specific, actionable code fix for the identified issue.\n"
    + "- Respond with only JSON, do NOT include other text or markdown.\n"
    + "</Output Rules>\n\n",
    "<Output Example>",
    "\n```\n</Output Example>\n\n")

  /** `customPrompt.length > 0 ? customPrompt.trim() + '\n' : ''`. */
  function CustomRules(customPrompt: string): (r: string)
    ensures r == [] <==> customPrompt == []
    ensures r != [] ==> r[|r| - 1] == '\n' && r[..|r| - 1] == Trim(customPrompt)
  {
    if |customPrompt| > 0 then Trim(customPrompt) + "\n" else ""
  }

  /** The length test comes before trimming: rules made only of whitespace still add a newline. */
  lemma CustomRulesWhitespaceOnly(customPrompt: string)
    requires customPrompt != [] && AllSpace(customPrompt)
    ensures CustomRules(customPrompt) == "\n"
  {
    TrimAllSpace(customPrompt);
  }

  /** The `<Change Description>` block, present exactly when the description is a non-empty string. */
  function WrappedChangeDescription(changeDescription: Option<string>): (r: string)
    ensures r != [] <==> changeDescription.Some? && changeDescription.value != []
    ensures r != [] ==> r == "<Change Description>\n" + changeDescription.value + "\n</Change Description>"
  {
    match changeDescription
    case Some(d) => if |d| > 0 then "<Change Description>\n" + d + "\n</Change Description>" else ""
    case None => ""
  }

  /** The diff, verbatim, between its tags. */
  function DiffBlock(diff: string): string {
    "<Diff>\n" + diff + "\n</Diff>\n"
  }

  /** Indices of the pieces the lemmas below talk about. */
  const IntroPiece: nat := 0
  const DiffFormatPiece: nat := 1
  const LineZeroPiece: nat := 4
  const ReviewRulesPiece: nat := 7
  const BuiltInRulesPiece: nat := 8
  const CustomRulesPiece: nat := 9
  const OutputRulesPiece: nat := 12
  const FieldsPiece: nat := 14
  const AdjustmentFieldsPiece: nat := 16
  const OutputExamplePiece: nat := 18
  const ChangeDescriptionPiece: nat := 22
  const DiffPiece: nat := 24

  /** The template literal of `createReviewPromptV1`, piece by piece, for template `t`. */
  function Parts(t: Template, changeDescription: Option<string>, diff: string, customPrompt: string,
                 responseExample: string): (ps: seq<string>)
    ensures |ps| == DiffPiece + 1
  {
    [ t.intro,
      t.diffFormatTag, t.diffFormatLead, t.removedLinesLead, t.lineZeroNote, "\n", t.diffFormatTail,
      t.reviewRulesTag, t.reviewRulesBody, CustomRules(customPrompt), t.reviewRulesCloseTag, "\n\n",
      t.outputRulesTag, "\n", t.fieldsRule, t.fieldDescriptions, t.adjustmentFields, t.outputRulesTail,
      t.outputExampleTag, "\n```json\n", responseExample, t.exampleClose,
      WrappedChangeDescription(changeDescription), "\n\n", DiffBlock(diff) ]
  }

  /** The prompt rendered from template `t`. */
  function Render(t: Template, changeDescription: Option<string>, diff: string, customPrompt: string,
                  responseExample: string): string
  {
    Concat(Parts(t, changeDescription, diff, customPrompt, responseExample))
  }

  /**
   * `createReviewPromptV1`. `responseExample` is the example rendered by
   * `JSON.stringify(responseExample, undefined, 2)`, a constant defined
   * outside this model.
   */
  function CreateReviewPromptV1(changeDescription: Option<string>, diff: string, customPrompt: string,
                                responseExample: string): (r: string)
    ensures StartsWith(r, V1.intro)
    ensures EndsWith(r, DiffBlock(diff))
  {
    PromptEndsWithDiff(V1, changeDescription, diff, customPrompt, responseExample);
    PromptSectionOrder(V1, changeDescription, diff, customPrompt, responseExample);
    Render(V1, changeDescription, diff, customPrompt, responseExample)
  }

  /** The instructions before the custom rules are the same for every call. */
  lemma PromptStartsFixed(t: Template, changeDescription: Option<string>, diff: string, customPrompt: string,
                          responseExample: string, changeDescription2: Option<string>, diff2: string,
                          customPrompt2: string, responseExample2: string)
    ensures var ps := Parts(t, changeDescription, diff, customPrompt, responseExample);
      var ps2 := Parts(t, changeDescription2, diff2, customPrompt2, responseExample2);
      && StartsWith(Render(t, changeDescription, diff, customPrompt, responseExample), Concat(ps[..CustomRulesPiece]))
      && Concat(ps[..CustomRulesPiece]) == Concat(ps2[..CustomRulesPiece])
  {
    var ps := Parts(t, changeDescription, diff, customPrompt, responseExample);
    var ps2 := Parts(t, changeDescription2, diff2, customPrompt2, responseExample2);
    ConcatSplit(ps, CustomRulesPiece);
    assert ps[..CustomRulesPiece] == ps2[..CustomRulesPiece];
  }

  /** The custom rules sit right after the built-in rules and right before the closing rules tag. */
  lemma PromptCustomRulesPlace(t: Template, changeDescription: Option<string>, diff: string, customPrompt: string,
                               responseExample: string)
    ensures var ps := Parts(t, changeDescription, diff, customPrompt, responseExample);
      var r := Render(t, changeDescription, diff, customPrompt, responseExample);
      && OccursAt(r, t.reviewRulesBody + CustomRules(customPrompt), Offset(ps, BuiltInRulesPiece))
      && OccursAt(r, CustomRules(customPrompt) + t.reviewRulesCloseTag, Offset(ps, CustomRulesPiece))
  {
    var ps := Parts(t, changeDescription, diff, customPrompt, responseExample);
    ConcatNeighbours(ps, BuiltInRulesPiece);
    ConcatNeighbours(ps, CustomRulesPiece);
  }

  /**
   * The change-description slot, a blank line and the diff block close the
   * prompt: the diff comes last, whole.
   */
  lemma PromptEndsWithDiff(t: Template, changeDescription: Option<string>, diff: string, customPrompt: string,
                           responseExample: string)
    ensures var ps := Parts(t, changeDescription, diff, customPrompt, responseExample);
      var r := Render(t, changeDescription, diff, customPrompt, responseExample);
      var w := WrappedChangeDescription(changeDescription);
      && OccursAt(r, w, Offset(ps, ChangeDescriptionPiece))
      && OccursAt(r, "\n\n" + DiffBlock(diff), Offset(ps, ChangeDescriptionPiece) + |w|)
      && Offset(ps, ChangeDescriptionPiece) + |w| + 2 + |DiffBlock(diff)| == |r|
      && EndsWith(r, DiffBlock(diff))
  {
    var ps := Parts(t, changeDescription, diff, customPrompt, responseExample);
    LastPiecesAt(ps);
  }

  /** The last three pieces end the prompt, in order. */
  lemma LastPiecesAt(ps: seq<string>)
    requires |ps| == DiffPiece + 1
    ensures var r := Concat(ps);
      && OccursAt(r, ps[ChangeDescriptionPiece], Offset(ps, ChangeDescriptionPiece))
      && OccursAt(r, ps[ChangeDescriptionPiece + 1] + ps[DiffPiece], Offset(ps, ChangeDescriptionPiece) + |ps[ChangeDescriptionPiece]|)
      && Offset(ps, ChangeDescriptionPiece) + |ps[ChangeDescriptionPiece]| + |ps[ChangeDescriptionPiece + 1]| + |ps[DiffPiece]| == |r|
      && EndsWith(r, ps[DiffPiece])
  {
    var r := Concat(ps);
    ConcatPiece(ps, ChangeDescriptionPiece);
    OffsetStep(ps, ChangeDescriptionPiece);
    ConcatNeighbours(ps, ChangeDescriptionPiece + 1);
    OffsetStep(ps, ChangeDescriptionPiece + 1);
    OffsetStep(ps, DiffPiece);
    OffsetMono(ps, DiffPiece, |ps|);
    ConcatPiece(ps, DiffPiece);
    OccursAtEnd(r, ps[DiffPiece], Offset(ps, DiffPiece));
  }

  /**
   * The sections come in a fixed order: the intro, the diff-format tag, the
   * review-rules tag, the output-rules tag, the output-example tag, the change
   * description slot, and the diff block last.
   */
  lemma PromptSectionOrder(t: Template, changeDescription: Option<string>, diff: string, customPrompt: string,
                           responseExample: string)
    requires t.diffFormatTag != [] && t.reviewRulesTag != [] && t.outputRulesTag != [] && t.outputExampleTag != []
    ensures var ps := Parts(t, changeDescription, diff, customPrompt, responseExample);
      var r := Render(t, changeDescription, diff, customPrompt, responseExample);
      && OccursAt(r, t.intro, 0)
      && OccursAt(r, t.diffFormatTag, Offset(ps, DiffFormatPiece))
      && OccursAt(r, t.reviewRulesTag, Offset(ps, ReviewRulesPiece))
      && OccursAt(r, t.outputRulesTag, Offset(ps, OutputRulesPiece))
      && OccursAt(r, t.outputExampleTag, Offset(ps, OutputExamplePiece))
      && OccursAt(r, WrappedChangeDescription(changeDescription), Offset(ps, ChangeDescriptionPiece))
      && OccursAt(r, DiffBlock(diff), Offset(ps, DiffPiece))
      && |t.intro| == Offset(ps, DiffFormatPiece) < Offset(ps, ReviewRulesPiece) < Offset(ps, OutputRulesPiece)
         < Offset(ps, OutputExamplePiece) < Offset(ps, ChangeDescriptionPiece) < Offset(ps, DiffPiece)
  {
    var ps := Parts(t, changeDescription, diff, customPrompt, responseExample);
    SectionsOccur(ps);
    SectionOffsetsIncrease(ps);
  }

  /** The pieces at the section indices occur in the prompt at their offsets. */
  lemma SectionsOccur(ps: seq<string>)
    requires |ps| == DiffPiece + 1
    ensures var r := Concat(ps);
      && OccursAt(r, ps[IntroPiece], 0)
      && OccursAt(r, ps[DiffFormatPiece], Offset(ps, DiffFormatPiece))
      && OccursAt(r, ps[ReviewRulesPiece], Offset(ps, ReviewRulesPiece))
      && OccursAt(r, ps[OutputRulesPiece], Offset(ps, OutputRulesPiece))
      && OccursAt(r, ps[OutputExamplePiece], Offset(ps, OutputExamplePiece))
      && OccursAt(r, ps[ChangeDescriptionPiece], Offset(ps, ChangeDescriptionPiece))
      && OccursAt(r, ps[DiffPiece], Offset(ps, DiffPiece))
  {
    assert ps[..0] == [];
    ConcatPiece(ps, IntroPiece);
    ConcatPiece(ps, DiffFormatPiece);
    ConcatPiece(ps, ReviewRulesPiece);
    ConcatPiece(ps, OutputRulesPiece);
    ConcatPiece(ps, OutputExamplePiece);
    ConcatPiece(ps, ChangeDescriptionPiece);
    ConcatPiece(ps, DiffPiece);
  }

  /** The offsets of the sections strictly increase when their tags are not empty. */
  lemma SectionOffsetsIncrease(ps: seq<string>)
    requires |ps| == DiffPiece + 1
    requires ps[DiffFormatPiece] != [] && ps[ReviewRulesPiece] != [] && ps[OutputRulesPiece] != []
    requires ps[OutputExamplePiece] != [] && ps[ChangeDescriptionPiece + 1] == "\n\n"
    ensures |ps[IntroPiece]| == Offset(ps, DiffFormatPiece) < Offset(ps, ReviewRulesPiece) < Offset(ps, OutputRulesPiece)
            < Offset(ps, OutputExamplePiece) < Offset(ps, ChangeDescriptionPiece) < Offset(ps, DiffPiece)
  {
    assert ps[..0] == [];
    OffsetStep(ps, IntroPiece);
    OffsetMono(ps, DiffFormatPiece, ReviewRulesPiece);
    OffsetMono(ps, ReviewRulesPiece, OutputRulesPiece);
    OffsetMono(ps, OutputRulesPiece, OutputExamplePiece);
    OffsetMono(ps, OutputExamplePiece, ChangeDescriptionPiece);
    OffsetMono(ps, ChangeDescriptionPiece + 1, DiffPiece);
    OffsetStep(ps, ChangeDescriptionPiece);
    OffsetStep(ps, ChangeDescriptionPiece + 1);
  }

  /**
   * The prompt tells the model that removed lines carry line number 0, and it
   * holds the lines naming the comment fields and the adjustment fields.
   */
  lemma PromptStatesFormat(t: Template, changeDescription: Option<string>, diff: string, customPrompt: string,
                           responseExample: string)
    ensures var ps := Parts(t, changeDescription, diff, customPrompt, responseExample);
      var r := Render(t, changeDescription, diff, customPrompt, responseExample);
      && OccursAt(r, t.removedLinesLead + t.lineZeroNote, Offset(ps, LineZeroPiece - 1))
      && OccursAt(r, t.fieldsRule, Offset(ps, FieldsPiece))
      && OccursAt(r, t.adjustmentFields, Offset(ps, AdjustmentFieldsPiece))
  {
    var ps := Parts(t, changeDescription, diff, customPrompt, responseExample);
    ConcatNeighbours(ps, LineZeroPiece - 1);
    ConcatPiece(ps, FieldsPiece);
    ConcatPiece(ps, AdjustmentFieldsPiece);
  }
}
