/**
 * The records the review pipeline produces: a proposed code fix, a review
 * comment, the comments of one file with their maximum severity, and the result
 * of a whole review. Also the one filter every presentation path applies to a
 * comment before showing it.
 */
module ReviewTypes {
  import opened Wrappers

  /** A concrete code change proposed with a comment; the line range is optional. */
  datatype ProposedAdjustment = ProposedAdjustment(
    originalCode: string,
    adjustedCode: string,
    description: string,
    startLine: Option<real>,
    endLine: Option<real>)

  /**
   * One review comment. `line` is the first affected line (1-based, to-side of
   * the diff; 0 marks an unreliable line) and `severity` runs from 1 (likely
   * irrelevant) to 5 (critical). `promptType` names the prompt that produced it.
   */
  datatype ReviewComment = ReviewComment(
    file: string,
    comment: string,
    line: real,
    severity: real,
    promptType: Option<string>,
    proposedAdjustment: Option<ProposedAdjustment>)

  /** The comments of one file before aggregation (a FileComments without `maxSeverity`). */
  datatype RawFileComments = RawFileComments(target: string, comments: seq<ReviewComment>)

  /** The comments of one file after aggregation, worst first. */
  datatype FileComments = FileComments(target: string, comments: seq<ReviewComment>, maxSeverity: real)

  /** A finished (or cancelled) review: per-file comments and the messages of per-file errors. */
  datatype ReviewResult = ReviewResult(fileComments: seq<FileComments>, errors: seq<string>)

  function Severity(c: ReviewComment): real { c.severity }

  function MaxSeverity(f: FileComments): real { f.maxSeverity }

  /** The bounds the record type documents: a line that is not negative and a severity in 0..5. */
  predicate Documented(c: ReviewComment) {
    c.line >= 0.0 && 0.0 <= c.severity <= 5.0
  }

  /**
   * The filter shared by the chat output, the panel-open decision and the review
   * panel: at least the configured minimum severity, and a reliable line.
   */
  predicate Visible(c: ReviewComment, minSeverity: real) {
    c.severity >= minSeverity && c.line > 0.0
  }

  /** `comments.filter(c => Visible(c, minSeverity))`. */
  function VisibleComments(cs: seq<ReviewComment>, minSeverity: real): (r: seq<ReviewComment>)
    ensures |r| <= |cs|
    ensures forall c :: c in r <==> c in cs && Visible(c, minSeverity)
  {
    if cs == [] then []
    else (if Visible(cs[0], minSeverity) then [cs[0]] else []) + VisibleComments(cs[1..], minSeverity)
  }

  /** Filtering keeps order: filtering a concatenation filters each part. */
  lemma {:induction false} VisibleCommentsAppend(a: seq<ReviewComment>, b: seq<ReviewComment>, minSeverity: real)
    ensures VisibleComments(a + b, minSeverity) == VisibleComments(a, minSeverity) + VisibleComments(b, minSeverity)
  {
    if a == [] {
      assert a + b == b;
    } else {
      assert (a + b)[1..] == a[1..] + b;
      VisibleCommentsAppend(a[1..], b, minSeverity);
    }
  }

  /** `file.comments.some(c => Visible(c, minSeverity))`. */
  predicate HasVisible(f: FileComments, minSeverity: real) {
    exists c :: c in f.comments && Visible(c, minSeverity)
  }

  /** Having a visible comment is the same as a non-empty filtered list. */
  lemma HasVisibleIff(f: FileComments, minSeverity: real)
    ensures HasVisible(f, minSeverity) <==> |VisibleComments(f.comments, minSeverity)| > 0
  {
    if HasVisible(f, minSeverity) {
      var c :| c in f.comments && Visible(c, minSeverity);
      assert c in VisibleComments(f.comments, minSeverity);
    }
    var r := VisibleComments(f.comments, minSeverity);
    if |r| > 0 {
      assert r[0] in r;
    }
  }
}
