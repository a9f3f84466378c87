/**
 * The chat participant `@codeReview`: it runs a review, writes the comments
 * into the chat response stream, tells the user when the review was cancelled
 * or failed, and decides whether the review panel is opened. Also the argument
 * dispatch of the `codeReview.applyAdjustment` command.
 *
 * The chat response stream is modelled as the list of parts written to it.
 */
module Extension {
  import opened Wrappers
  import opened Text
  import opened Json
  import opened ReviewTypes
  import opened Progress
  import CodeReviewPanel

  /* ---------- the chat response stream ---------- */

  /**
   * A part written to the chat stream. Numbers written into markdown text keep
   * their value: `LineLabel(n)` is the text `Line ${n}: ` and
   * `CommentText(t, s)` is `${t} (Severity: ${s}/5)`.
   */
  datatype ChatPart =
    | Markdown(text: string)
    | LineLabel(line: real)
    | CommentText(comment: string, severity: real)
    | FileAnchor(target: string)
    | LocationAnchor(target: string, position: real)
    | ProgressNote(message: string)
    | CommandButton(command: string, title: string)

  class ChatStream {
    var parts: seq<ChatPart>

    constructor()
      ensures parts == []
    {
      parts := [];
    }
  }

  /* ---------- progress and cancellation (`review`) ---------- */

  /** The reporter's forwarded messages as progress parts. */
  function ProgressParts(ms: seq<string>): (r: seq<ChatPart>)
    ensures |r| == |ms|
    ensures forall i :: 0 <= i < |ms| ==> r[i] == ProgressNote(ms[i])
  {
    seq(|ms|, i requires 0 <= i < |ms| => ProgressNote(ms[i]))
  }

  const PartialResultsText := "\nCancelled, showing partial results."
  const CancelledText := "\nCancelled."

  /** What `review` appends once the review is over: nothing unless cancelled. */
  function CancellationParts(cancelled: bool, result: ReviewResult): (r: seq<ChatPart>)
    ensures !cancelled <==> r == []
    ensures r == [Markdown(PartialResultsText)] <==> cancelled && |result.fileComments| > 0
    ensures r == [Markdown(CancelledText)] <==> cancelled && |result.fileComments| == 0
  {
    if !cancelled then []
    else if |result.fileComments| > 0 then [Markdown(PartialResultsText)]
    else [Markdown(CancelledText)]
  }

  /**
   * One call of the reporter's `report`: a forwarded message goes to the
   * stream as progress, so the stream keeps ending with the forwarded messages.
   */
  method ReportProgress(stream: ChatStream, progress: Reporter, message: string, ghost base: seq<ChatPart>)
    requires progress.Valid() && stream.parts == base + ProgressParts(progress.posted)
    modifies stream, progress
    ensures progress.Valid() && progress.reports == old(progress.reports) + [message]
    ensures stream.parts == base + ProgressParts(progress.posted)
  {
    var before := progress.posted;
    progress.Report(message);
    if |progress.posted| > |before| {
      stream.parts := stream.parts + [ProgressNote(message)];
      AppendAssoc(base, ProgressParts(before), [ProgressNote(message)]);
      assert ProgressParts(progress.posted) == ProgressParts(before) + [ProgressNote(message)];
    }
  }

  /** The progress reporter of `review`, receiving `reports` in order. */
  method ForwardProgress(stream: ChatStream, progress: Reporter, reports: seq<string>)
    requires progress.Valid() && progress.reports == [] && progress.posted == []
    modifies stream, progress
    ensures progress.Valid() && progress.posted == Forwarded(reports)
    ensures stream.parts == old(stream.parts) + ProgressParts(Forwarded(reports))
  {
    assert stream.parts == old(stream.parts) + ProgressParts(progress.posted);
    for r := 0 to |reports|
      invariant progress.Valid() && progress.reports == reports[..r]
      invariant stream.parts == old(stream.parts) + ProgressParts(progress.posted)
    {
      assert reports[..r + 1] == reports[..r] + [reports[r]];
      ReportProgress(stream, progress, reports[r], old(stream.parts));
    }
    assert reports[..|reports|] == reports;
  }

  /**
   * `review`. The review itself happens outside this model: `reports` are the
   * progress messages it reports, `result` what it returns, and `cancelled`
   * whether the token is cancelled when it returns.
   */
  method Review(stream: ChatStream, reports: seq<string>, result: ReviewResult, cancelled: bool)
    returns (r: ReviewResult)
    modifies stream
    ensures r == result
    ensures stream.parts == old(stream.parts) + ProgressParts(Forwarded(reports)) + CancellationParts(cancelled, result)
  {
    var progress := new Reporter();
    ForwardProgress(stream, progress, reports);
    if cancelled {
      if |result.fileComments| > 0 {
        stream.parts := stream.parts + [Markdown(PartialResultsText)];
      } else {
        stream.parts := stream.parts + [Markdown(CancelledText)];
      }
    }
    r := result;
  }

  /* ---------- the panel-open decision (`handleChat`) ---------- */

  /** `results.fileComments.filter(file => HasVisible(file, minSeverity))`. */
  function FilesWithVisible(files: seq<FileComments>, minSeverity: real): (r: seq<FileComments>)
    ensures |r| <= |files|
    ensures forall f :: f in r <==> f in files && HasVisible(f, minSeverity)
  {
    if files == [] then []
    else
      var last := files[|files| - 1];
      FilesWithVisible(files[..|files| - 1], minSeverity) + (if HasVisible(last, minSeverity) then [last] else [])
  }

  /** The chat opens the review panel when the filtered list is non-empty. */
  predicate OpensPanel(result: ReviewResult, minSeverity: real) {
    |FilesWithVisible(result.fileComments, minSeverity)| > 0
  }

  /**
   * The panel opens exactly when some file has a visible comment, which is
   * exactly when the panel itself would post some file result for the review.
   */
  lemma OpensPanelIff(result: ReviewResult, minSeverity: real)
    ensures OpensPanel(result, minSeverity) <==>
      exists f, c :: f in result.fileComments && c in f.comments && Visible(c, minSeverity)
    ensures OpensPanel(result, minSeverity) <==> |CodeReviewPanel.FilteredResults(result.fileComments, minSeverity)| > 0
  {
    var files := result.fileComments;
    var chat := FilesWithVisible(files, minSeverity);
    var panel := CodeReviewPanel.FilteredResults(files, minSeverity);
    CodeReviewPanel.FilteredResultsMembership(files, minSeverity);
    if |chat| > 0 {
      assert chat[0] in chat;
      assert CodeReviewPanel.FilterFile(chat[0], minSeverity) in panel;
    }
    if |panel| > 0 {
      assert panel[0] in panel;
      var g :| g in files && HasVisible(g, minSeverity) && panel[0] == CodeReviewPanel.FilterFile(g, minSeverity);
      assert g in chat;
    }
  }

  const PanelNoteText := "\n\n**Review results are also available in the Source Control panel**\n\n"

  /** What `handleChat` writes when it opens the panel. */
  function PanelParts(result: ReviewResult, minSeverity: real): (r: seq<ChatPart>)
    ensures r != [] <==> OpensPanel(result, minSeverity)
    ensures OpensPanel(result, minSeverity) ==>
      r == [Markdown(PanelNoteText), CommandButton("codeReview.openCodeReviewPanel", "Open Code Review Panel")]
  {
    if OpensPanel(result, minSeverity) then
      [Markdown(PanelNoteText), CommandButton("codeReview.openCodeReviewPanel", "Open Code Review Panel")]
    else []
  }

  /* ---------- the comments in the chat (`showReviewResults`) ---------- */

  /** A `promptType` that is present and not empty is written in bold. */
  function PromptTypeParts(promptType: Option<string>): (r: seq<ChatPart>)
    ensures r != [] <==> promptType.Some? && promptType.value != ""
    ensures forall p :: p in r ==> p.Markdown? && |p.text| > 0 && p.text[0] == '*'
    ensures promptType.Some? && promptType.value != "" ==> r == [Markdown("**" + promptType.value + "**: ")]
  {
    match promptType
    case Some(t) => if t != "" then [Markdown("**" + t + "**: ")] else []
    case None => []
  }

  /**
   * The parts written for one shown comment: a bullet, a clickable location
   * when the target is checked out and the line is positive, else the line
   * number as text, the prompt type, and the comment with its severity.
   */
  function CommentParts(target: string, c: ReviewComment, checkedOut: bool): (r: seq<ChatPart>)
    ensures |r| >= 3 && r[0] == Markdown("\n - ") && r[|r| - 1] == CommentText(c.comment, c.severity)
    ensures r[1] == (if checkedOut && c.line > 0.0 then LocationAnchor(target, c.line - 1.0) else LineLabel(c.line))
  {
    [Markdown("\n - ")]
    + (if checkedOut && c.line > 0.0 then [LocationAnchor(target, c.line - 1.0)] else [LineLabel(c.line)])
    + PromptTypeParts(c.promptType)
    + [CommentText(c.comment, c.severity)]
  }

  /** The parts of the comments `cs`, one after the other. */
  function CommentsParts(target: string, cs: seq<ReviewComment>, checkedOut: bool): seq<ChatPart> {
    if cs == [] then []
    else CommentsParts(target, cs[..|cs| - 1], checkedOut) + CommentParts(target, cs[|cs| - 1], checkedOut)
  }

  /** The parts of one file: an anchor, its shown comments and a blank line, or nothing when none is shown. */
  function FileParts(f: FileComments, minSeverity: real, checkedOut: bool): seq<ChatPart> {
    var shown := VisibleComments(f.comments, minSeverity);
    if |shown| > 0 then [FileAnchor(f.target)] + CommentsParts(f.target, shown, checkedOut) + [Markdown("\n\n")]
    else []
  }

  /** The parts of the files, one after the other. */
  function FilesParts(files: seq<FileComments>, minSeverity: real, checkedOut: bool): seq<ChatPart> {
    if files == [] then []
    else FilesParts(files[..|files| - 1], minSeverity, checkedOut) + FileParts(files[|files| - 1], minSeverity, checkedOut)
  }

  /** Stopping early writes a prefix of what the whole loop writes. */
  lemma {:induction false} FilesPartsPrefix(files: seq<FileComments>, k: nat, minSeverity: real, checkedOut: bool)
    requires k <= |files|
    ensures FilesParts(files[..k], minSeverity, checkedOut) <= FilesParts(files, minSeverity, checkedOut)
    decreases |files|
  {
    if k < |files| {
      var init := files[..|files| - 1];
      FilesPartsPrefix(init, k, minSeverity, checkedOut);
      assert init[..k] == files[..k];
    } else {
      assert files[..k] == files;
    }
  }

  lemma FilesPartsSnoc(files: seq<FileComments>, i: nat, minSeverity: real, checkedOut: bool)
    requires i < |files|
    ensures FilesParts(files[..i + 1], minSeverity, checkedOut)
            == FilesParts(files[..i], minSeverity, checkedOut) + FileParts(files[i], minSeverity, checkedOut)
  {
    var g := files[..i + 1];
    assert g[..|g| - 1] == files[..i];
    assert g[|g| - 1] == files[i];
  }

  /** No file has a visible comment: the final value of `noProblemsFound`. */
  predicate NoVisibleComment(files: seq<FileComments>, minSeverity: real) {
    forall i :: 0 <= i < |files| ==> !HasVisible(files[i], minSeverity)
  }

  lemma NoVisibleSnoc(files: seq<FileComments>, i: nat, minSeverity: real)
    requires i < |files|
    ensures NoVisibleComment(files[..i + 1], minSeverity) <==> NoVisibleComment(files[..i], minSeverity) && !HasVisible(files[i], minSeverity)
  {
    assert files[..i + 1][i] == files[i];
    forall k | 0 <= k < i ensures files[..i + 1][k] == files[..i][k] {
    }
  }

  const NoProblemsText := "\nNo problems found."
  const NotCheckedOutText := "\nNote: The target branch or commit is not checked out, so line numbers may not match the current state."

  /** The closing line: no problems, or else the not-checked-out note when it applies. */
  function SummaryParts(noProblemsFound: bool, errors: seq<string>, checkedOut: bool): (r: seq<ChatPart>)
    ensures r == [Markdown(NoProblemsText)] <==> noProblemsFound && |errors| == 0
    ensures r == [Markdown(NotCheckedOutText)] <==> !(noProblemsFound && |errors| == 0) && !checkedOut
    ensures |r| <= 1
  {
    if noProblemsFound && |errors| == 0 then [Markdown(NoProblemsText)]
    else if !checkedOut then [Markdown(NotCheckedOutText)]
    else []
  }

  /** The header of the error thrown after a review with errors. */
  function ErrorHeader(count: nat): string {
    NatToDecimal(count) + " error(s) occurred during review:\n"
  }

  /** One ` - ` line per error message. */
  function ErrorLines(errors: seq<string>): (r: seq<string>)
    ensures |r| == |errors|
    ensures forall i :: 0 <= i < |errors| ==> r[i] == " - " + errors[i]
  {
    seq(|errors|, i requires 0 <= i < |errors| => " - " + errors[i])
  }

  /** The message of the error thrown at the end, when there are errors. */
  function ErrorSummary(errors: seq<string>): (r: Option<string>)
    ensures r.Some? <==> |errors| > 0
  {
    if |errors| == 0 then None
    else Some(ErrorHeader(|errors|) + Join(ErrorLines(errors), "\n"))
  }

  /**
   * The error thrown states how many errors there were and lists every message
   * on a line of its own, in order.
   */
  lemma ErrorSummaryLines(errors: seq<string>, i: nat)
    requires i < |errors|
    ensures ErrorSummary(errors) == Some(
      ErrorHeader(|errors|)
      + (if i == 0 then "" else Join(ErrorLines(errors)[..i], "\n") + "\n")
      + " - " + errors[i]
      + (if i + 1 == |errors| then "" else "\n" + Join(ErrorLines(errors)[i + 1..], "\n")))
    ensures DecimalValue(NatToDecimal(|errors|)) == |errors|
  {
    var lines := ErrorLines(errors);
    var before := if i == 0 then "" else Join(lines[..i], "\n") + "\n";
    var after := if i + 1 == |errors| then "" else "\n" + Join(lines[i + 1..], "\n");
    JoinElement(lines, "\n", i);
    assert Join(lines, "\n") == before + (" - " + errors[i]) + after;
    Regroup(ErrorHeader(|errors|), before, " - ", errors[i], after);
    DecimalRoundTrip(|errors|);
  }

  lemma Regroup<T>(h: seq<T>, a: seq<T>, p: seq<T>, e: seq<T>, b: seq<T>)
    ensures h + (a + (p + e) + b) == h + a + p + e + b
  {
  }

  lemma Regroup4<T>(a: seq<T>, b: seq<T>, c: seq<T>, d: seq<T>)
    ensures a + b + c + d == a + (b + c + d)
  {
  }

  /**
   * Everything `showReviewResults` writes when the token is first seen cancelled
   * before file `cancelAt` (never, when `cancelAt` is past the last file).
   */
  function ShownParts(result: ReviewResult, minSeverity: real, checkedOut: bool, cancelAt: nat): (r: seq<ChatPart>)
    ensures r <= FilesParts(result.fileComments, minSeverity, checkedOut)
                 + SummaryParts(NoVisibleComment(result.fileComments, minSeverity), result.errors, checkedOut)
    ensures Markdown(NoProblemsText) in r ==>
              cancelAt >= |result.fileComments| && NoVisibleComment(result.fileComments, minSeverity) && |result.errors| == 0
  {
    var files := result.fileComments;
    var summary := SummaryParts(NoVisibleComment(files, minSeverity), result.errors, checkedOut);
    if cancelAt < |files| then
      FilesPartsPrefix(files, cancelAt, minSeverity, checkedOut);
      PrefixOfAppend(FilesParts(files[..cancelAt], minSeverity, checkedOut), FilesParts(files, minSeverity, checkedOut), summary);
      NoProblemsTextNotInFiles(files[..cancelAt], minSeverity, checkedOut);
      FilesParts(files[..cancelAt], minSeverity, checkedOut)
    else
      NoProblemsTextNotInFiles(files, minSeverity, checkedOut);
      assert Markdown(NoProblemsText) in summary ==> summary == [Markdown(NoProblemsText)];
      FilesParts(files, minSeverity, checkedOut) + summary
  }

  /** A prefix of `b` is a prefix of anything that extends `b`. */
  lemma PrefixOfAppend<T>(a: seq<T>, b: seq<T>, c: seq<T>)
    requires a <= b
    ensures a <= b + c
  {
    assert (b + c)[..|a|] == b[..|a|];
  }

  /** What `showReviewResults` throws: the error summary, unless it stopped early. */
  function ShownThrow(result: ReviewResult, cancelAt: nat): Option<string> {
    if cancelAt < |result.fileComments| then None else ErrorSummary(result.errors)
  }

  /** One iteration of the inner loop: the parts of one comment. */
  method ShowComment(stream: ChatStream, target: string, comment: ReviewComment, isTargetCheckedOut: bool)
    modifies stream
    ensures stream.parts == old(stream.parts) + CommentParts(target, comment, isTargetCheckedOut)
  {
    var isValidLineNumber := isTargetCheckedOut && comment.line > 0.0;
    stream.parts := stream.parts + [Markdown("\n - ")];
    if isValidLineNumber {
      stream.parts := stream.parts + [LocationAnchor(target, comment.line - 1.0)];
    } else {
      stream.parts := stream.parts + [LineLabel(comment.line)];
    }
    if comment.promptType.Some? && comment.promptType.value != "" {
      stream.parts := stream.parts + [Markdown("**" + comment.promptType.value + "**: ")];
    }
    stream.parts := stream.parts + [CommentText(comment.comment, comment.severity)];
  }

  /**
   * The inner loop of `showReviewResults` over one file's shown comments; every
   * comment written clears `noProblemsFound`.
   */
  method ShowComments(stream: ChatStream, target: string, comments: seq<ReviewComment>, isTargetCheckedOut: bool, noProblemsFound: bool)
    returns (stillNoProblems: bool)
    modifies stream
    ensures stream.parts == old(stream.parts) + CommentsParts(target, comments, isTargetCheckedOut)
    ensures stillNoProblems == (noProblemsFound && comments == [])
  {
    stillNoProblems := noProblemsFound;
    for j := 0 to |comments|
      invariant stream.parts == old(stream.parts) + CommentsParts(target, comments[..j], isTargetCheckedOut)
      invariant stillNoProblems == (noProblemsFound && j == 0)
    {
      assert comments[..j + 1][..j] == comments[..j];
      ShowComment(stream, target, comments[j], isTargetCheckedOut);
      AppendAssoc(old(stream.parts), CommentsParts(target, comments[..j], isTargetCheckedOut),
                                  CommentParts(target, comments[j], isTargetCheckedOut));
      stillNoProblems := false;
    }
    assert comments[..|comments|] == comments;
  }

  /** One iteration of the outer loop: the parts of one file, and the updated `noProblemsFound`. */
  method ShowFile(stream: ChatStream, file: FileComments, minSeverity: real, isTargetCheckedOut: bool, noProblemsFound: bool)
    returns (stillNoProblems: bool)
    modifies stream
    ensures stream.parts == old(stream.parts) + FileParts(file, minSeverity, isTargetCheckedOut)
    ensures stillNoProblems == (noProblemsFound && !HasVisible(file, minSeverity))
  {
    var filtered := VisibleComments(file.comments, minSeverity);
    var anchor: seq<ChatPart> := if |filtered| > 0 then [FileAnchor(file.target)] else [];
    stream.parts := stream.parts + anchor;
    stillNoProblems := ShowComments(stream, file.target, filtered, isTargetCheckedOut, noProblemsFound);
    var closing: seq<ChatPart> := if |filtered| > 0 then [Markdown("\n\n")] else [];
    stream.parts := stream.parts + closing;
    Regroup4(old(stream.parts), anchor, CommentsParts(file.target, filtered, isTargetCheckedOut), closing);
    HasVisibleIff(file, minSeverity);
  }

  /**
   * The loop of `showReviewResults` over the files. It stops, unfinished, at
   * file `cancelAt` (the first file before which the token reads cancelled).
   */
  method ShowFiles(stream: ChatStream, files: seq<FileComments>, minSeverity: real, isTargetCheckedOut: bool, cancelAt: nat)
    returns (finished: bool, noProblemsFound: bool)
    modifies stream
    ensures finished <==> cancelAt >= |files|
    ensures !finished ==> stream.parts == old(stream.parts) + FilesParts(files[..cancelAt], minSeverity, isTargetCheckedOut)
    ensures finished ==> stream.parts == old(stream.parts) + FilesParts(files, minSeverity, isTargetCheckedOut)
    ensures finished ==> noProblemsFound == NoVisibleComment(files, minSeverity)
  {
    noProblemsFound := true;
    for i := 0 to |files|
      invariant i <= cancelAt
      invariant stream.parts == old(stream.parts) + FilesParts(files[..i], minSeverity, isTargetCheckedOut)
      invariant noProblemsFound == NoVisibleComment(files[..i], minSeverity)
    {
      if i == cancelAt {
        return false, noProblemsFound;
      }
      NoVisibleSnoc(files, i, minSeverity);
      FilesPartsSnoc(files, i, minSeverity, isTargetCheckedOut);
      noProblemsFound := ShowFile(stream, files[i], minSeverity, isTargetCheckedOut, noProblemsFound);
      AppendAssoc(old(stream.parts), FilesParts(files[..i], minSeverity, isTargetCheckedOut),
                                  FileParts(files[i], minSeverity, isTargetCheckedOut));
    }
    assert files[..|files|] == files;
    finished := true;
  }

  /**
   * `showReviewResults`. `cancelAt` is the first file before which the token
   * reads cancelled; the result is the message of the error it throws, if any.
   */
  method ShowReviewResults(stream: ChatStream, result: ReviewResult, minSeverity: real, isTargetCheckedOut: bool, cancelAt: nat)
    returns (thrown: Option<string>)
    modifies stream
    ensures stream.parts == old(stream.parts) + ShownParts(result, minSeverity, isTargetCheckedOut, cancelAt)
    ensures thrown == ShownThrow(result, cancelAt)
  {
    var finished, noProblemsFound := ShowFiles(stream, result.fileComments, minSeverity, isTargetCheckedOut, cancelAt);
    if !finished {
      return None;
    }
    if noProblemsFound && |result.errors| == 0 {
      stream.parts := stream.parts + [Markdown(NoProblemsText)];
    } else if !isTargetCheckedOut {
      stream.parts := stream.parts + [Markdown(NotCheckedOutText)];
    }
    AppendAssoc(old(stream.parts), FilesParts(result.fileComments, minSeverity, isTargetCheckedOut),
                                SummaryParts(noProblemsFound, result.errors, isTargetCheckedOut));
    if |result.errors| > 0 {
      return Some(ErrorHeader(|result.errors|) + Join(ErrorLines(result.errors), "\n"));
    }
    return None;
  }

  /**
   * The part of `handleChat` after the review request is settled: review,
   * possibly open the panel, and show the results. `cancelPoint` counts the
   * token reads that still see it uncancelled: 0 means the token is already
   * cancelled when the review returns.
   */
  method ShowReview(stream: ChatStream, reports: seq<string>, reviewed: ReviewResult, minSeverity: real,
                    isTargetCheckedOut: bool, cancelPoint: nat)
    returns (openedPanel: bool, thrown: Option<string>)
    modifies stream
    ensures openedPanel == OpensPanel(reviewed, minSeverity)
    ensures var cancelAt := if cancelPoint == 0 then 0 else cancelPoint - 1;
      && stream.parts == old(stream.parts) + ProgressParts(Forwarded(reports)) + CancellationParts(cancelPoint == 0, reviewed)
                         + PanelParts(reviewed, minSeverity) + ShownParts(reviewed, minSeverity, isTargetCheckedOut, cancelAt)
      && thrown == ShownThrow(reviewed, cancelAt)
  {
    var results := Review(stream, reports, reviewed, cancelPoint == 0);
    ghost var reviewedParts := stream.parts;
    var filteredResults := FilesWithVisible(results.fileComments, minSeverity);
    openedPanel := |filteredResults| > 0;
    if openedPanel {
      stream.parts := stream.parts + [Markdown(PanelNoteText), CommandButton("codeReview.openCodeReviewPanel", "Open Code Review Panel")];
    }
    assert stream.parts == reviewedParts + PanelParts(reviewed, minSeverity);
    thrown := ShowReviewResults(stream, results, minSeverity, isTargetCheckedOut, if cancelPoint == 0 then 0 else cancelPoint - 1);
  }

  /* ---------- what the shown parts mean ---------- */

  /** Some part is a written comment. */
  predicate EmitsComment(parts: seq<ChatPart>) {
    exists i :: 0 <= i < |parts| && parts[i].CommentText?
  }

  lemma EmitsAppend(a: seq<ChatPart>, b: seq<ChatPart>)
    ensures EmitsComment(a + b) <==> EmitsComment(a) || EmitsComment(b)
  {
    if EmitsComment(a + b) {
      var i :| 0 <= i < |a + b| && (a + b)[i].CommentText?;
      if i < |a| {
        assert a[i].CommentText?;
      } else {
        assert b[i - |a|].CommentText?;
      }
    }
    if EmitsComment(a) {
      var i :| 0 <= i < |a| && a[i].CommentText?;
      assert (a + b)[i].CommentText?;
    }
    if EmitsComment(b) {
      var i :| 0 <= i < |b| && b[i].CommentText?;
      assert (a + b)[|a| + i].CommentText?;
    }
  }

  /** The parts of one comment, as a set: bullet, location or line label, prompt type, comment text. */
  lemma CommentPartsContent(target: string, c: ReviewComment, checkedOut: bool, p: ChatPart)
    ensures p in CommentParts(target, c, checkedOut) <==>
      || p == Markdown("\n - ")
      || p == (if checkedOut && c.line > 0.0 then LocationAnchor(target, c.line - 1.0) else LineLabel(c.line))
      || p in PromptTypeParts(c.promptType)
      || p == CommentText(c.comment, c.severity)
  {
  }

  /** A part of the comments' parts is a part of one of the comments. */
  lemma {:induction false} CommentsPartsMember(target: string, cs: seq<ReviewComment>, checkedOut: bool, p: ChatPart)
    ensures p in CommentsParts(target, cs, checkedOut) <==> exists c :: c in cs && p in CommentParts(target, c, checkedOut)
  {
    if cs != [] {
      var n := |cs| - 1;
      var front := cs[..n];
      var earlier := CommentsParts(target, front, checkedOut);
      var last := CommentParts(target, cs[n], checkedOut);
      assert CommentsParts(target, cs, checkedOut) == earlier + last;
      CommentsPartsMember(target, front, checkedOut, p);
      if p in last {
        assert cs[n] in cs;
      }
      if c :| c in cs && p in CommentParts(target, c, checkedOut) {
        var k :| 0 <= k < |cs| && cs[k] == c;
        if k < n {
          assert c in front;
        }
      }
    }
  }

  /** Some comment is written as soon as there is a comment to write. */
  lemma CommentsPartsEmit(target: string, cs: seq<ReviewComment>, checkedOut: bool)
    requires cs != []
    ensures EmitsComment(CommentsParts(target, cs, checkedOut))
  {
    var whole := CommentsParts(target, cs, checkedOut);
    var last := CommentParts(target, cs[|cs| - 1], checkedOut);
    assert whole == CommentsParts(target, cs[..|cs| - 1], checkedOut) + last;
    assert whole[|whole| - 1] == last[|last| - 1];
  }

  /** A part of the files' parts is a part of one of the files. */
  lemma {:induction false} FilesPartsMember(files: seq<FileComments>, minSeverity: real, checkedOut: bool, p: ChatPart)
    ensures p in FilesParts(files, minSeverity, checkedOut) <==> exists f :: f in files && p in FileParts(f, minSeverity, checkedOut)
  {
    if files != [] {
      var n := |files| - 1;
      FilesPartsMember(files[..n], minSeverity, checkedOut, p);
      if p in FileParts(files[n], minSeverity, checkedOut) {
        assert files[n] in files;
      }
      if f :| f in files && p in FileParts(f, minSeverity, checkedOut) {
        var k :| 0 <= k < |files| && files[k] == f;
        if k < n {
          assert f in files[..n];
        }
      }
    }
  }

  /** The parts of one file: its anchor and closing blank line when it has a visible comment, and the parts of its visible comments. */
  lemma FilePartsContent(f: FileComments, minSeverity: real, checkedOut: bool, p: ChatPart)
    ensures p in FileParts(f, minSeverity, checkedOut) <==>
      || (HasVisible(f, minSeverity) && (p == FileAnchor(f.target) || p == Markdown("\n\n")))
      || (exists c :: c in f.comments && Visible(c, minSeverity) && p in CommentParts(f.target, c, checkedOut))
  {
    var shown := VisibleComments(f.comments, minSeverity);
    HasVisibleIff(f, minSeverity);
    CommentsPartsMember(f.target, shown, checkedOut, p);
    if c :| c in f.comments && Visible(c, minSeverity) && p in CommentParts(f.target, c, checkedOut) {
      assert c in shown;
    }
  }

  /** A file's parts contain a comment exactly when the file has a visible comment. */
  lemma FileEmits(f: FileComments, minSeverity: real, checkedOut: bool)
    ensures EmitsComment(FileParts(f, minSeverity, checkedOut)) <==> HasVisible(f, minSeverity)
  {
    var shown := VisibleComments(f.comments, minSeverity);
    HasVisibleIff(f, minSeverity);
    if |shown| > 0 {
      var body := CommentsParts(f.target, shown, checkedOut);
      CommentsPartsEmit(f.target, shown, checkedOut);
      EmitsAppend([FileAnchor(f.target)], body);
      EmitsAppend([FileAnchor(f.target)] + body, [Markdown("\n\n")]);
    }
  }

  /**
   * `noProblemsFound` is the same as "no comment was written": a comment is
   * written exactly when some file has a visible comment.
   */
  lemma {:induction false} NoProblemsIffNothingWritten(files: seq<FileComments>, minSeverity: real, checkedOut: bool)
    ensures NoVisibleComment(files, minSeverity) <==> !EmitsComment(FilesParts(files, minSeverity, checkedOut))
  {
    if files != [] {
      var n := |files| - 1;
      NoProblemsIffNothingWritten(files[..n], minSeverity, checkedOut);
      EmitsAppend(FilesParts(files[..n], minSeverity, checkedOut), FileParts(files[n], minSeverity, checkedOut));
      FileEmits(files[n], minSeverity, checkedOut);
      NoVisibleSnoc(files, n, minSeverity);
      assert files[..n + 1] == files;
    }
  }

  /** A comment text in one file's parts is one of its visible comments, and each of those is there. */
  lemma FileCommentTexts(f: FileComments, minSeverity: real, checkedOut: bool, text: string, severity: real)
    ensures CommentText(text, severity) in FileParts(f, minSeverity, checkedOut) <==>
      exists c :: c in f.comments && Visible(c, minSeverity) && c.comment == text && c.severity == severity
  {
    var p := CommentText(text, severity);
    FilePartsContent(f, minSeverity, checkedOut, p);
    forall c ensures p in CommentParts(f.target, c, checkedOut) <==> c.comment == text && c.severity == severity {
      CommentPartsContent(f.target, c, checkedOut, p);
    }
  }

  /**
   * The comments written are exactly the visible comments of the files: each
   * written comment is visible in its file, and every visible comment is written.
   */
  lemma WrittenCommentsAreVisible(files: seq<FileComments>, minSeverity: real, checkedOut: bool, text: string, severity: real)
    ensures CommentText(text, severity) in FilesParts(files, minSeverity, checkedOut) <==>
      exists f, c :: f in files && c in f.comments && Visible(c, minSeverity) && c.comment == text && c.severity == severity
  {
    var p := CommentText(text, severity);
    FilesPartsMember(files, minSeverity, checkedOut, p);
    if p in FilesParts(files, minSeverity, checkedOut) {
      var f :| f in files && p in FileParts(f, minSeverity, checkedOut);
      FileCommentTexts(f, minSeverity, checkedOut, text, severity);
    }
    if f, c :| f in files && c in f.comments && Visible(c, minSeverity) && c.comment == text && c.severity == severity {
      FileCommentTexts(f, minSeverity, checkedOut, text, severity);
    }
  }

  /** One file's parts anchor its own target, and only when it has a visible comment. */
  lemma FileAnchors(f: FileComments, minSeverity: real, checkedOut: bool, target: string)
    ensures FileAnchor(target) in FileParts(f, minSeverity, checkedOut) <==> f.target == target && HasVisible(f, minSeverity)
  {
    FilePartsContent(f, minSeverity, checkedOut, FileAnchor(target));
    forall c ensures FileAnchor(target) !in CommentParts(f.target, c, checkedOut) {
      CommentPartsContent(f.target, c, checkedOut, FileAnchor(target));
    }
  }

  /**
   * A file is anchored exactly when it has a visible comment (a file listed
   * twice is anchored twice).
   */
  lemma AnchoredFiles(files: seq<FileComments>, minSeverity: real, checkedOut: bool, target: string)
    ensures FileAnchor(target) in FilesParts(files, minSeverity, checkedOut) <==>
      exists f :: f in files && f.target == target && HasVisible(f, minSeverity)
  {
    FilesPartsMember(files, minSeverity, checkedOut, FileAnchor(target));
    if FileAnchor(target) in FilesParts(files, minSeverity, checkedOut) {
      var f :| f in files && FileAnchor(target) in FileParts(f, minSeverity, checkedOut);
      FileAnchors(f, minSeverity, checkedOut, target);
    }
    if f :| f in files && f.target == target && HasVisible(f, minSeverity) {
      FileAnchors(f, minSeverity, checkedOut, target);
    }
  }

  /** The location and line parts of one file. */
  lemma FileLocations(f: FileComments, minSeverity: real, checkedOut: bool, p: ChatPart)
    requires p in FileParts(f, minSeverity, checkedOut)
    ensures checkedOut ==> !p.LineLabel?
    ensures !checkedOut ==> !p.LocationAnchor?
    ensures p.LocationAnchor? ==> p.target == f.target && exists c :: c in f.comments && Visible(c, minSeverity) && p.position == c.line - 1.0
  {
    FilePartsContent(f, minSeverity, checkedOut, p);
    if !(HasVisible(f, minSeverity) && (p == FileAnchor(f.target) || p == Markdown("\n\n"))) {
      var c :| c in f.comments && Visible(c, minSeverity) && p in CommentParts(f.target, c, checkedOut);
      CommentPartsContent(f.target, c, checkedOut, p);
    }
  }

  /**
   * With the target checked out every shown comment gets a clickable location
   * (its line made 0-based) and none is labelled with a line number; otherwise
   * none gets a location.
   */
  lemma LocationsOnlyWhenCheckedOut(files: seq<FileComments>, minSeverity: real, checkedOut: bool, p: ChatPart)
    requires p in FilesParts(files, minSeverity, checkedOut)
    ensures checkedOut ==> !p.LineLabel?
    ensures !checkedOut ==> !p.LocationAnchor?
    ensures p.LocationAnchor? ==>
      exists f, c :: f in files && f.target == p.target && c in f.comments && Visible(c, minSeverity) && p.position == c.line - 1.0
  {
    FilesPartsMember(files, minSeverity, checkedOut, p);
    var f :| f in files && p in FileParts(f, minSeverity, checkedOut);
    FileLocations(f, minSeverity, checkedOut, p);
  }

  /** No file's parts contain the no-problems line. */
  lemma NoProblemsTextNotInFile(f: FileComments, minSeverity: real, checkedOut: bool)
    ensures Markdown(NoProblemsText) !in FileParts(f, minSeverity, checkedOut)
  {
    FilePartsContent(f, minSeverity, checkedOut, Markdown(NoProblemsText));
    forall c ensures Markdown(NoProblemsText) !in CommentParts(f.target, c, checkedOut) {
      CommentPartsContent(f.target, c, checkedOut, Markdown(NoProblemsText));
    }
  }

  /** No run of the file loop writes the no-problems line. */
  lemma NoProblemsTextNotInFiles(files: seq<FileComments>, minSeverity: real, checkedOut: bool)
    ensures Markdown(NoProblemsText) !in FilesParts(files, minSeverity, checkedOut)
  {
    FilesPartsMember(files, minSeverity, checkedOut, Markdown(NoProblemsText));
    forall f | f in files ensures Markdown(NoProblemsText) !in FileParts(f, minSeverity, checkedOut) {
      NoProblemsTextNotInFile(f, minSeverity, checkedOut);
    }
  }

  /**
   * "No problems found." is written exactly when the loop ran to the end, no
   * comment was written and there were no errors.
   */
  lemma NoProblemsFoundIff(result: ReviewResult, minSeverity: real, checkedOut: bool, cancelAt: nat)
    ensures Markdown(NoProblemsText) in ShownParts(result, minSeverity, checkedOut, cancelAt) <==>
      cancelAt >= |result.fileComments| && !EmitsComment(FilesParts(result.fileComments, minSeverity, checkedOut)) && |result.errors| == 0
  {
    var files := result.fileComments;
    var upTo := if cancelAt < |files| then files[..cancelAt] else files;
    NoProblemsTextNotInFiles(upTo, minSeverity, checkedOut);
    NoProblemsIffNothingWritten(files, minSeverity, checkedOut);
  }

  /* ---------- the `/commit` argument check (`getReviewRequest`) ---------- */

  /** A parsed ref that JavaScript treats as given: present and not empty. */
  predicate Given(ref: Option<string>) {
    ref.Some? && ref.value != ""
  }

  const CommitArgumentError := "/commit expects at most a single ref as argument"

  /**
   * The commit `/commit` reviews: the given target, or else what the commit
   * picker returns (`picked`); `Ok(None)` when nothing was picked.
   */
  function CommitRef(target: Option<string>, base: Option<string>, picked: Option<string>): (r: Result<Option<string>, string>)
    ensures r.Err? <==> Given(target) && Given(base)
    ensures r.Err? ==> r.error == CommitArgumentError
    ensures r == Ok(None) <==> !Given(target) && !Given(picked)
    ensures r.Ok? && r.value.Some? ==> r.value == (if Given(target) then target else picked)
  {
    if Given(target) then
      if Given(base) then Err(CommitArgumentError) else Ok(Some(target.value))
    else if Given(picked) then Ok(Some(picked.value))
    else Ok(None)
  }

  /**
   * `/commit` fails exactly when two refs are given; a given target is used
   * without asking, otherwise the picked commit is used, and a base given
   * without a target is ignored.
   */
  lemma CommitRefSpec(target: Option<string>, base: Option<string>, picked: Option<string>, otherBase: Option<string>)
    ensures CommitRef(target, base, picked).Err? <==> Given(target) && Given(base)
    ensures CommitRef(target, base, picked).Err? ==> CommitRef(target, base, picked).error == CommitArgumentError
    ensures Given(target) && !Given(base) ==> CommitRef(target, base, picked) == Ok(Some(target.value))
    ensures !Given(target) ==> CommitRef(target, base, picked) == CommitRef(target, otherBase, picked)
    ensures CommitRef(target, base, picked) == Ok(None) <==> !Given(target) && !Given(picked)
  {
  }

  /* ---------- the `applyAdjustment` command arguments ---------- */

  /**
   * The adjustment handed on to the panel: an argument value used as it is, or
   * one built from separate decoded strings. `startLine`/`endLine` are the
   * decoded strings that `parseInt` is applied to.
   */
  datatype Adjustment =
    | Cast(value: Json)
    | Separate(filePath: string, originalCode: string, adjustedCode: string, startLine: Option<string>, endLine: Option<string>)

  /** Why the dispatch failed: no known shape, or a throw from `decodeURIComponent` or `JSON.parse`. */
  datatype DispatchError = InvalidFormat(message: string) | Foreign(thrown: CodeReviewPanel.Thrown)

  /** `typeof v`. */
  function TypeOf(v: Json): string {
    match v
    case JBool(_) => "boolean"
    case JNumber(_) => "number"
    case JString(_) => "string"
    case _ => "object"
  }

  function InvalidFormatMessage(args: seq<Json>): string {
    "Invalid argument format for applyAdjustment command. Received " + NatToDecimal(|args|)
      + " args of types: " + Join(seq(|args|, i requires 0 <= i < |args| => TypeOf(args[i])), ", ")
  }

  /** The optional 4th and 5th argument: decoded when it is a non-empty string. */
  function DecodeOptional(args: seq<Json>, i: nat, decode: string -> Result<string, CodeReviewPanel.Thrown>)
    : Result<Option<string>, CodeReviewPanel.Thrown>
  {
    if i < |args| && Truthy(args[i]) && args[i].JString? then
      match decode(args[i].s)
      case Ok(d) => Ok(Some(d))
      case Err(t) => Err(t)
    else Ok(None)
  }

  /** The 3+ strings shape: each argument decoded in order, the first failure thrown. */
  function SeparateStrings(args: seq<Json>, decode: string -> Result<string, CodeReviewPanel.Thrown>): (r: Result<Adjustment, DispatchError>)
    requires |args| >= 3 && args[0].JString? && args[1].JString? && args[2].JString?
    ensures r.Err? ==> r.error.Foreign? && exists i :: 0 <= i < 5 && i < |args| && args[i].JString? && decode(args[i].s) == Err(r.error.thrown)
    ensures r.Ok? ==> r.value.Separate? && Ok(r.value.filePath) == decode(args[0].s)
  {
    match decode(args[0].s)
    case Err(t) => Err(Foreign(t))
    case Ok(filePath) =>
      match decode(args[1].s)
      case Err(t) => Err(Foreign(t))
      case Ok(originalCode) =>
        match decode(args[2].s)
        case Err(t) => Err(Foreign(t))
        case Ok(adjustedCode) =>
          match DecodeOptional(args, 3, decode)
          case Err(t) => Err(Foreign(t))
          case Ok(startLine) =>
            match DecodeOptional(args, 4, decode)
            case Err(t) => Err(Foreign(t))
            case Ok(endLine) => Ok(Separate(filePath, originalCode, adjustedCode, startLine, endLine))
  }

  /**
   * The shape dispatch of `codeReview.applyAdjustment`. `decode` stands for
   * `decodeURIComponent` and `parse` for `JSON.parse`, both of which may throw.
   */
  function DispatchArguments(args: seq<Json>, decode: string -> Result<string, CodeReviewPanel.Thrown>,
                             parse: string -> Result<Json, CodeReviewPanel.Thrown>): (r: Result<Adjustment, DispatchError>)
    ensures r.Err? && r.error.InvalidFormat? <==> !SingleObject(args) && !SingleString(args) && !LeadingStrings(args)
    ensures r.Err? && r.error.InvalidFormat? ==> r.error.message == InvalidFormatMessage(args)
    ensures r.Ok? && SingleObject(args) ==> r.value == Cast(Unwrapped(args[0]))
  {
    if |args| == 1 && args[0].JArray? && |args[0].items| == 1 then Ok(Cast(args[0].items[0]))
    else if |args| == 1 && IsObjectType(args[0]) && !args[0].JNull? then Ok(Cast(args[0]))
    else if |args| == 1 && args[0].JString? then
      match decode(args[0].s)
      case Err(t) => Err(Foreign(t))
      case Ok(jsonStr) =>
        match parse(jsonStr)
        case Err(t) => Err(Foreign(t))
        case Ok(parsed) =>
          if parsed.JArray? && |parsed.items| == 1 then Ok(Cast(parsed.items[0])) else Ok(Cast(parsed))
    else if |args| >= 3 && args[0].JString? && args[1].JString? && args[2].JString? then SeparateStrings(args, decode)
    else Err(InvalidFormat(InvalidFormatMessage(args)))
  }

  /** A single argument that is an array or a non-null object. */
  predicate SingleObject(args: seq<Json>) {
    |args| == 1 && (args[0].JArray? || args[0].JObject?)
  }

  /** A single string argument. */
  predicate SingleString(args: seq<Json>) {
    |args| == 1 && args[0].JString?
  }

  /** At least three arguments, the first three strings. */
  predicate LeadingStrings(args: seq<Json>) {
    |args| >= 3 && forall i :: 0 <= i < 3 ==> args[i].JString?
  }

  /** A value with a one-element array unwrapped. */
  function Unwrapped(v: Json): (r: Json)
    ensures v.JArray? && |v.items| == 1 ==> r == v.items[0]
    ensures !(v.JArray? && |v.items| == 1) ==> r == v
  {
    if v.JArray? && |v.items| == 1 then v.items[0] else v
  }

  /**
   * The dispatch tries the shapes in order: a single array or object (a
   * one-element array unwrapped), a single string parsed as JSON (a one-element
   * array unwrapped), at least three strings; anything else is rejected with
   * the invalid-format message.
   */
  lemma DispatchShapes(args: seq<Json>, decode: string -> Result<string, CodeReviewPanel.Thrown>,
                       parse: string -> Result<Json, CodeReviewPanel.Thrown>)
    ensures SingleObject(args) ==> DispatchArguments(args, decode, parse) == Ok(Cast(Unwrapped(args[0])))
    ensures SingleString(args) && decode(args[0].s).Ok? && parse(decode(args[0].s).value).Ok? ==>
      DispatchArguments(args, decode, parse) == Ok(Cast(Unwrapped(parse(decode(args[0].s).value).value)))
    ensures SingleString(args) && decode(args[0].s).Err? ==>
      DispatchArguments(args, decode, parse) == Err(Foreign(decode(args[0].s).error))
    ensures LeadingStrings(args) && |args| > 1 ==> DispatchArguments(args, decode, parse) == SeparateStrings(args, decode)
    ensures DispatchArguments(args, decode, parse).Err? && DispatchArguments(args, decode, parse).error.InvalidFormat? <==>
      !SingleObject(args) && !SingleString(args) && !LeadingStrings(args)
    ensures !SingleObject(args) && !SingleString(args) && !LeadingStrings(args) ==>
      DispatchArguments(args, decode, parse) == Err(InvalidFormat(InvalidFormatMessage(args)))
  {
    if LeadingStrings(args) {
      assert args[0].JString? && args[1].JString? && args[2].JString?;
      match SeparateStrings(args, decode)
      case Ok(_) =>
      case Err(e) => assert e.Foreign?;
    }
  }

  /** With all decodes succeeding, the separate strings are the decoded first three arguments. */
  lemma SeparateStringsDecoded(args: seq<Json>, decode: string -> Result<string, CodeReviewPanel.Thrown>)
    requires LeadingStrings(args)
    requires forall i :: 0 <= i < |args| && i < 5 && args[i].JString? ==> decode(args[i].s).Ok?
    ensures args[0].JString? && args[1].JString? && args[2].JString?
    ensures SeparateStrings(args, decode) == Ok(Separate(decode(args[0].s).value, decode(args[1].s).value, decode(args[2].s).value,
      if |args| > 3 && args[3].JString? && args[3].s != "" then Some(decode(args[3].s).value) else None,
      if |args| > 4 && args[4].JString? && args[4].s != "" then Some(decode(args[4].s).value) else None))
  {
    assert args[0].JString? && args[1].JString? && args[2].JString?;
  }

  /** The text shown when the command fails. */
  function FailureText(e: DispatchError): (r: string)
    ensures StartsWith(r, FailurePrefix)
    ensures e.InvalidFormat? ==> r[|FailurePrefix|..] == e.message
    ensures e.Foreign? && e.thrown.ErrorObject? ==> r[|FailurePrefix|..] == e.thrown.message
    ensures e.Foreign? && e.thrown.OtherValue? ==> r[|FailurePrefix|..] == "Unknown error"
  {
    var message := match e
      case InvalidFormat(m) => m
      case Foreign(t) => if t.ErrorObject? then t.message else "Unknown error";
    FailurePrefix + message
  }

  const FailurePrefix := "Failed to apply adjustment: "
}
